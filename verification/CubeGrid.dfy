/** Best-first exploration of grids of hypotheses and translation options
    (moses/src/BitmapContainer.cpp, BackwardsEdge and BitmapContainer). */
module CubeGrid {
  type Pos = (nat, nat)

  const MAX_DIM: nat := 0x2_0000

  // ---------------------------------------------------------------- the key of a position

  /** Conversion of a size_t to int. */
  function ToInt(v: nat): int {
    var w := v % 0x1_0000_0000;
    if w < 0x8000_0000 then w else w - 0x1_0000_0000
  }

  /** (x << 16) + y, as it is stored in a set of int. */
  function Key(c: Pos): int {
    ToInt(c.0 * 0x1_0000 + c.1)
  }

  predicate InGrid(c: Pos, width: nat, height: nat) {
    c.0 < width && c.1 < height
  }

  ghost predicate Injective(width: nat, height: nat) {
    forall c: Pos, d: Pos :: InGrid(c, width, height) && InGrid(d, width, height) && Key(c) == Key(d) ==> c == d
  }

  /** How far apart two positions with the same key can be. */
  lemma KeysEqual(c: Pos, d: Pos)
    requires c.0 <= d.0 < MAX_DIM && c.1 < MAX_DIM && d.1 < MAX_DIM
    ensures var gap := (d.0 - c.0) * 0x1_0000 + d.1 - c.1;
            Key(c) == Key(d) <==> gap == 0 || gap == 0x1_0000_0000 || gap == 0x2_0000_0000
  {
    SameInt(c.0 * 0x1_0000 + c.1, d.0 * 0x1_0000 + d.1);
  }

  lemma SameInt(v: nat, w: nat)
    requires -0x1_0000_0000 < w - v < 0x3_0000_0000
    ensures ToInt(v) == ToInt(w) <==> w - v == 0 || w - v == 0x1_0000_0000 || w - v == 0x2_0000_0000
  {
    var p, q := v / 0x1_0000_0000, w / 0x1_0000_0000;
    var r, s := v % 0x1_0000_0000, w % 0x1_0000_0000;
    assert v == p * 0x1_0000_0000 + r && w == q * 0x1_0000_0000 + s;
    assert ToInt(v) == ToInt(w) <==> r == s;
  }

  /** The keys tell positions apart exactly on grids of at most 65536 rows that have at most 65536 columns, or
      a single row. */
  lemma KeyIsInjective(width: nat, height: nat)
    requires width <= MAX_DIM && height <= MAX_DIM && width > 0 && height > 0
    ensures Injective(width, height) <==> width <= 0x1_0000 && (height <= 0x1_0000 || width == 1)
  {
    if width > 0x1_0000 {
      KeysEqual((0, 0), (0x1_0000, 0));
      assert InGrid((0, 0), width, height) && InGrid((0x1_0000, 0), width, height);
    } else if height > 0x1_0000 && width > 1 {
      KeysEqual((0, 0x1_0000), (1, 0));
      assert InGrid((0, 0x1_0000), width, height) && InGrid((1, 0), width, height);
    } else {
      forall c: Pos, d: Pos | InGrid(c, width, height) && InGrid(d, width, height) && Key(c) == Key(d) ensures c == d {
        if c.0 <= d.0 { KeysEqual(c, d); } else { KeysEqual(d, c); }
      }
    }
  }

  // ---------------------------------------------------------------- one edge

  /** A grid of hypotheses by translation options; score gives the total score of the hypothesis made of each
      pair, none of which is missing. */
  class BackwardsEdge {
    const width: nat
    const height: nat
    const score: Pos -> real
    var seenPosition: set<int>
    /** The positions that have been enqueued. */
    ghost var marked: set<Pos>

    ghost predicate Valid()
      reads this
    {
      && width <= MAX_DIM && height <= MAX_DIM
      && (forall c :: c in marked ==> InGrid(c, width, height) && Key(c) in seenPosition)
      && (forall k :: k in seenPosition ==> exists c :: c in marked && Key(c) == k)
      && (forall c, d :: c in marked && d in marked && Key(c) == Key(d) ==> c == d)
    }

    constructor (width: nat, height: nat, score: Pos -> real)
      requires width <= MAX_DIM && height <= MAX_DIM
      ensures Valid() && marked == {} && this.width == width && this.height == height && this.score == score
    {
      this.width, this.height, this.score, seenPosition, marked := width, height, score, {}, {};
    }

    predicate SeenPosition(c: Pos)
      reads this
    {
      Key(c) in seenPosition
    }

    method SetSeenPosition(c: Pos)
      requires Valid() && InGrid(c, width, height) && !SeenPosition(c)
      modifies this`seenPosition, this`marked
      ensures Valid() && marked == old(marked) + {c} && seenPosition == old(seenPosition) + {Key(c)}
    {
      seenPosition := seenPosition + {Key(c)};
      marked := marked + {c};
    }

    /** Both successors of a position have been dealt with. */
    ghost predicate SuccessorsSeen(c: Pos)
      reads this
    {
      && (InGrid((c.0, c.1 + 1), width, height) ==> SeenPosition((c.0, c.1 + 1)))
      && (InGrid((c.0 + 1, c.1), width, height) ==> SeenPosition((c.0 + 1, c.1)))
    }
  }

  ghost predicate NoneTwice<T>(s: seq<T>) {
    forall i, j :: 0 <= i < j < |s| ==> s[i] != s[j]
  }

  // ---------------------------------------------------------------- the container

  datatype Item = Item(edge: BackwardsEdge, pos: Pos)

  function Total(it: Item): real {
    it.edge.score(it.pos)
  }

  /** The places of a maximal item and of the others. */
  method Best(queue: seq<Item>) returns (b: nat)
    requires queue != []
    ensures b < |queue| && forall i :: 0 <= i < |queue| ==> Total(queue[i]) <= Total(queue[b])
  {
    b := 0;
    for i := 1 to |queue|
      invariant b < |queue| && forall k :: 0 <= k < i ==> Total(queue[k]) <= Total(queue[b])
    {
      if Total(queue[i]) > Total(queue[b]) { b := i; }
    }
  }

  class BitmapContainer {
    const edges: set<BackwardsEdge>
    var queue: seq<Item>
    var numStackInsertions: nat
    /** The items that have been taken from the queue, in order. */
    ghost var popped: seq<Item>

    /** Every enqueued position is either waiting or popped, once. */
    ghost predicate Tracked()
      reads this, edges
    {
      && NoneTwice(queue + popped)
      && (forall it :: it in queue + popped ==> it.edge in edges && it.pos in it.edge.marked)
      && (forall e, c :: e in edges && c in e.marked ==> Item(e, c) in queue + popped)
    }

    /** The first n popped items have had their successors pushed. */
    ghost predicate Pushed(n: nat)
      reads this, edges
    {
      && n <= |popped| && (forall e :: e in edges ==> e.Valid()) && Tracked()
      && (forall i :: 0 <= i < n ==> popped[i].edge in edges && popped[i].edge.SuccessorsSeen(popped[i].pos))
    }

    ghost predicate Valid()
      reads this, edges
    {
      Pushed(|popped|)
    }

    /** Every non-empty grid has been started. */
    ghost predicate Started()
      reads this, edges
    {
      forall e :: e in edges && e.width > 0 && e.height > 0 ==> (0, 0) in e.marked
    }

    constructor (edges: set<BackwardsEdge>)
      requires forall e :: e in edges ==> e.Valid() && e.marked == {}
      ensures Valid() && this.edges == edges && queue == [] && popped == [] && numStackInsertions == 0
    {
      this.edges, queue, numStackInsertions, popped := edges, [], 0, [];
    }

    /** Marks a position whose key has not been seen and enqueues it: SetSeenPosition and Enqueue. */
    method MarkAndEnqueue(e: BackwardsEdge, c: Pos, ghost n: nat)
      requires Pushed(n) && e in edges && InGrid(c, e.width, e.height) && !e.SeenPosition(c)
      modifies this`queue, e`seenPosition, e`marked
      ensures Pushed(n) && e.SeenPosition(c) && e.marked == old(e.marked) + {c}
      ensures queue == old(queue) + [Item(e, c)] && Item(e, c) !in old(queue + popped)
      ensures forall k :: k in old(e.seenPosition) ==> k in e.seenPosition
    {
      OneMore(queue, popped, Item(e, c));
      e.SetSeenPosition(c);
      queue := queue + [Item(e, c)];
      forall i | 0 <= i < n ensures popped[i].edge.SuccessorsSeen(popped[i].pos) {
        assert old(popped[i].edge.SuccessorsSeen(popped[i].pos));
      }
    }

    /** BackwardsEdge::Initialize: the corner of a non-empty grid. */
    method Initialize(e: BackwardsEdge)
      requires Valid() && e in edges && e.marked == {}
      modifies this`queue, e`seenPosition, e`marked
      ensures Valid() && (e.width > 0 && e.height > 0 ==> (0, 0) in e.marked)
    {
      if e.width == 0 || e.height == 0 { return; }
      assert !e.SeenPosition((0, 0));
      MarkAndEnqueue(e, (0, 0), |popped|);
    }

    /** InitializeEdges */
    method InitializeEdges()
      requires Valid() && forall e :: e in edges ==> e.marked == {}
      modifies this`queue, edges`seenPosition, edges`marked
      ensures Valid() && Started()
    {
      var todo := edges;
      while todo != {}
        invariant todo <= edges && Valid()
        invariant forall e :: e in todo ==> e.marked == {}
        invariant forall e :: e in edges - todo && e.width > 0 && e.height > 0 ==> (0, 0) in e.marked
      {
        var e :| e in todo;
        Initialize(e);
        todo := todo - {e};
      }
    }

    /** One successor, unless it is outside the grid or its key has been seen. */
    method PushSuccessor(e: BackwardsEdge, c: Pos, ghost n: nat)
      requires Pushed(n) && e in edges
      modifies this`queue, e`seenPosition, e`marked
      ensures Pushed(n) && (InGrid(c, e.width, e.height) ==> e.SeenPosition(c))
      ensures old(e.marked) <= e.marked && forall k :: k in old(e.seenPosition) ==> k in e.seenPosition
    {
      if InGrid(c, e.width, e.height) && !e.SeenPosition(c) {
        MarkAndEnqueue(e, c, n);
      }
    }

    /** BackwardsEdge::PushSuccessors: the next translation option first, then the next hypothesis. */
    method PushSuccessors(e: BackwardsEdge, c: Pos, ghost n: nat)
      requires Pushed(n) && e in edges
      modifies this`queue, e`seenPosition, e`marked
      ensures Pushed(n) && e.SuccessorsSeen(c) && old(e.marked) <= e.marked
    {
      PushSuccessor(e, (c.0, c.1 + 1), n);
      PushSuccessor(e, (c.0 + 1, c.1), n);
    }

    /** Dequeue: a maximal item leaves the queue. */
    method Dequeue() returns (item: Item)
      requires Valid() && queue != []
      modifies this`queue, this`popped
      ensures Pushed(|old(popped)|) && item in old(queue) && item.edge in edges && popped == old(popped) + [item]
      ensures forall it :: it in old(queue) ==> Total(it) <= Total(item)
      ensures forall it :: it in old(queue) <==> it in queue || it == item
    {
      var b := Best(queue);
      item := queue[b];
      Moved(queue, popped, b);
      popped := popped + [item];
      queue := queue[..b] + queue[b + 1..];
    }

    /** ProcessBestHypothesis; newstackentry is the answer of AddPrune.  A best waiting item is popped and its
        successors are enqueued. */
    method ProcessBestHypothesis(newstackentry: bool)
      requires Valid()
      modifies this`queue, this`popped, this`numStackInsertions, edges`seenPosition, edges`marked
      ensures Valid() && (old(Started()) ==> Started())
      ensures if old(queue) == [] then popped == old(popped) && queue == [] && numStackInsertions == old(numStackInsertions)
              else exists it :: IsBest(old(queue), it) && popped == old(popped) + [it]
      ensures old(queue) != [] ==> numStackInsertions == old(numStackInsertions) + if newstackentry then 1 else 0
    {
      if queue == [] { return; }
      var item := Dequeue();
      if newstackentry { numStackInsertions := numStackInsertions + 1; }
      PushSuccessors(item.edge, item.pos, |popped| - 1);
    }

    // -------------------------------------------------------------- what is explored

    /** With keys that tell positions apart, a position whose neighbour is popped is waiting or popped. */
    lemma SuccessorMarked(e: BackwardsEdge, c: Pos, d: Pos)
      requires Valid() && e in edges && Injective(e.width, e.height) && Item(e, c) in popped
      requires d == (c.0, c.1 + 1) || d == (c.0 + 1, c.1)
      requires InGrid(d, e.width, e.height)
      ensures d in e.marked
    {
      var i :| 0 <= i < |popped| && popped[i] == Item(e, c);
      assert e.SuccessorsSeen(c) && e.Valid();
      var m :| m in e.marked && Key(m) == Key(d);
      assert InGrid(m, e.width, e.height);
    }

    lemma MarkedIsPushed(e: BackwardsEdge, c: Pos)
      requires Valid() && Started() && e in edges && InGrid(c, e.width, e.height)
      ensures c in e.marked ==> Item(e, c) in queue || Item(e, c) in popped
      ensures c !in e.marked ==> c.0 > 0 || c.1 > 0
    {
      assert c in e.marked ==> Item(e, c) in queue + popped;
      assert e.width > 0 && e.height > 0;
    }

    /** Every position that is not popped is preceded, row by column, by one that waits. */
    lemma {:induction false} Frontier(e: BackwardsEdge, c: Pos) returns (d: Pos)
      requires Valid() && Started() && e in edges && Injective(e.width, e.height)
      requires InGrid(c, e.width, e.height) && Item(e, c) !in popped
      ensures d.0 <= c.0 && d.1 <= c.1 && Item(e, d) in queue
      decreases c.0 + c.1
    {
      MarkedIsPushed(e, c);
      hide Valid, Started, Injective;
      if c in e.marked {
        d := c;
      } else {
        var before := BeforeIsOpen(e, c);
        d := Frontier(e, before);
      }
    }

    /** A position that is not marked has one before it that is not popped. */
    lemma BeforeIsOpen(e: BackwardsEdge, c: Pos) returns (before: Pos)
      requires Valid() && Started() && e in edges && Injective(e.width, e.height)
      requires InGrid(c, e.width, e.height) && c !in e.marked
      ensures before.0 <= c.0 && before.1 <= c.1 && before.0 + before.1 < c.0 + c.1
      ensures InGrid(before, e.width, e.height) && Item(e, before) !in popped
    {
      MarkedIsPushed(e, c);
      hide Valid, Started, Injective;
      before := (c.0, 0);
      if c.1 > 0 { before := (c.0, c.1 - 1); } else if c.0 > 0 { before := (c.0 - 1, 0); }
      if Item(e, before) in popped { SuccessorMarked(e, before, c); }
    }

    /** Run until nothing waits, the search has popped every position of an edge exactly if its keys tell its
        positions apart. */
    lemma Exhausted(e: BackwardsEdge)
      requires Valid() && Started() && queue == [] && e in edges
      ensures (forall c: Pos :: InGrid(c, e.width, e.height) ==> Item(e, c) in popped) <==> Injective(e.width, e.height)
    {
      if Injective(e.width, e.height) {
        forall c: Pos | InGrid(c, e.width, e.height) ensures Item(e, c) in popped {
          if Item(e, c) !in popped { var d := Frontier(e, c); }
        }
      }
      if forall c: Pos :: InGrid(c, e.width, e.height) ==> Item(e, c) in popped {
        forall c: Pos, d: Pos | InGrid(c, e.width, e.height) && InGrid(d, e.width, e.height) && Key(c) == Key(d) ensures c == d {
          assert Item(e, c) in queue + popped && Item(e, d) in queue + popped && e.Valid();
        }
      }
    }

    /** On a grid with more than 65536 rows, which the assertions admit, some position is never popped. */
    lemma LargeGridLosesPositions(e: BackwardsEdge)
      requires Valid() && Started() && queue == [] && e in edges && 0x1_0000 < e.width <= MAX_DIM && 0 < e.height <= MAX_DIM
      ensures exists c: Pos :: InGrid(c, e.width, e.height) && Item(e, c) !in popped
    {
      Exhausted(e);
      KeyIsInjective(e.width, e.height);
    }

    // -------------------------------------------------------------- in which order

    /** Scores never rise along rows and columns, and keys tell positions apart. */
    ghost predicate Ordered()
    {
      forall e :: e in edges ==> Injective(e.width, e.height) && NonIncreasing(e)
    }

    /** No position outside done scores more than bound. */
    ghost predicate RestBelow(done: seq<Item>, bound: real) {
      forall e, c :: e in edges && InGrid(c, e.width, e.height) && Item(e, c) !in done ==> e.score(c) <= bound
    }

    /** The waiting items bound everything that is not popped. */
    lemma WaitingBound(bound: real)
      requires Valid() && Started() && Ordered() && forall it :: it in queue ==> Total(it) <= bound
      ensures RestBelow(popped, bound)
    {
      forall e, c | e in edges && InGrid(c, e.width, e.height) && Item(e, c) !in popped ensures e.score(c) <= bound {
        var d := Frontier(e, c);
        ScoreFalls(e, d, c);
        assert Total(Item(e, d)) <= bound;
      }
    }

    /** The items of done come in non-increasing order, and they are the best of all positions. */
    ghost predicate BestFirst(done: seq<Item>) {
      && (forall i, j :: 0 <= i < j < |done| ==> Total(done[j]) <= Total(done[i]))
      && (forall i :: 0 <= i < |done| ==> RestBelow(done, Total(done[i])))
    }

    /** One more pop keeps the order. */
    lemma StillBestFirst(done: seq<Item>, last: Item)
      requires BestFirst(done) && last !in done && last.edge in edges && InGrid(last.pos, last.edge.width, last.edge.height)
      requires RestBelow(done, Total(last))
      ensures BestFirst(done + [last])
    {
      var more := done + [last];
      forall i | 0 <= i < |more| ensures RestBelow(more, Total(more[i])) {
        assert i < |done| ==> RestBelow(done, Total(done[i]));
      }
      forall i | 0 <= i < |done| ensures Total(last) <= Total(done[i]) {
        assert RestBelow(done, Total(done[i])) && last == Item(last.edge, last.pos);
      }
    }

    lemma WaitingIsNew(it: Item)
      requires Valid() && it in queue
      ensures it !in popped && it.edge in edges && InGrid(it.pos, it.edge.width, it.edge.height)
    {
      var i :| 0 <= i < |queue| && queue[i] == it;
      assert it in queue + popped && it.edge.Valid();
      forall j | 0 <= j < |popped| ensures popped[j] != it {
        assert (queue + popped)[i] == it && (queue + popped)[|queue| + j] == popped[j];
      }
    }

    /** Any best waiting item may come next. */
    lemma BestIsNext()
      requires Valid() && Started() && Ordered() && BestFirst(popped)
      ensures forall it :: IsBest(queue, it) ==> BestFirst(popped + [it])
    {
      forall it | IsBest(queue, it) ensures BestFirst(popped + [it]) {
        WaitingBound(Total(it));
        WaitingIsNew(it);
        StillBestFirst(popped, it);
      }
    }

    // -------------------------------------------------------------- runs

    /** All positions of all grids. */
    ghost function Cells(): set<Item> {
      set e, x, y | e in edges && 0 <= x < e.width && 0 <= y < e.height :: Item(e, (x, y))
    }

    /** Positions that are not popped yet. */
    ghost function Remaining(): set<Item>
      reads this`popped
    {
      Cells() - set it | it in popped
    }

    /** How many of the first n answers are true. */
    ghost function Insertions(accepted: nat -> bool, n: nat): nat {
      if n == 0 then 0 else Insertions(accepted, n - 1) + if accepted(n - 1) then 1 else 0
    }

    /** EnsureMinStackHyps; accepted gives the answers of AddPrune in the order of the calls.  It goes on exactly as long
        as there are too few insertions and something to pop. */
    method EnsureMinStackHyps(minNumHyps: nat, accepted: nat -> bool)
      requires Valid() && Started()
      modifies this`queue, this`popped, this`numStackInsertions, edges`seenPosition, edges`marked
      ensures Valid() && Started() && (queue == [] || numStackInsertions >= minNumHyps)
      ensures old(popped) <= popped && (Ordered() && old(BestFirst(popped)) ==> BestFirst(popped))
      ensures numStackInsertions == old(numStackInsertions) + Insertions(accepted, |popped| - |old(popped)|)
      ensures forall k :: 0 <= k < |popped| - |old(popped)| ==> old(numStackInsertions) + Insertions(accepted, k) < minNumHyps
    {
      hide Valid, Started, Ordered, BestFirst, Remaining;
      var n := 0;
      while queue != [] && numStackInsertions < minNumHyps
        invariant Valid() && Started() && old(popped) <= popped
        invariant Ordered() && old(BestFirst(popped)) ==> BestFirst(popped)
        invariant n == |popped| - |old(popped)| && numStackInsertions == old(numStackInsertions) + Insertions(accepted, n)
        invariant forall k :: 0 <= k < n ==> old(numStackInsertions) + Insertions(accepted, k) < minNumHyps
        decreases Remaining()
      {
        PopBest(accepted(n));
        n := n + 1;
      }
    }

    /** A pop from a queue that is not empty. */
    method PopBest(newstackentry: bool)
      requires Valid() && Started() && queue != []
      modifies this`queue, this`popped, this`numStackInsertions, edges`seenPosition, edges`marked
      ensures Valid() && Started() && |popped| == |old(popped)| + 1 && old(popped) <= popped
      ensures Ordered() && old(BestFirst(popped)) ==> BestFirst(popped)
      ensures numStackInsertions == old(numStackInsertions) + if newstackentry then 1 else 0
      ensures Remaining() < old(Remaining())
    {
      if Ordered() && BestFirst(popped) { BestIsNext(); }
      PoppedLeaves();
      ProcessBestHypothesis(newstackentry);
    }

    lemma PoppedLeaves()
      requires Valid()
      ensures forall it :: it in queue ==> it in Remaining()
    {
      forall it | it in queue ensures it in Remaining() {
        WaitingIsNew(it);
        assert it == Item(it.edge, (it.pos.0, it.pos.1));
      }
    }
  }

  ghost predicate IsBest(queue: seq<Item>, it: Item) {
    it in queue && forall other :: other in queue ==> Total(other) <= Total(it)
  }

  ghost predicate NonIncreasing(e: BackwardsEdge) {
    && (forall x: nat, y: nat :: InGrid((x, y + 1), e.width, e.height) ==> e.score((x, y + 1)) <= e.score((x, y)))
    && (forall x: nat, y: nat :: InGrid((x + 1, y), e.width, e.height) ==> e.score((x + 1, y)) <= e.score((x, y)))
  }

  lemma {:induction false} ScoreFalls(e: BackwardsEdge, d: Pos, c: Pos)
    requires NonIncreasing(e) && InGrid(c, e.width, e.height) && d.0 <= c.0 && d.1 <= c.1
    ensures e.score(c) <= e.score(d)
    decreases c.0 - d.0 + c.1 - d.1
  {
    if d.0 < c.0 {
      ScoreFalls(e, d, (c.0 - 1, c.1));
      var x := c.0 - 1;
      assert InGrid((x + 1, c.1), e.width, e.height);
    } else if d.1 < c.1 {
      ScoreFalls(e, d, (c.0, c.1 - 1));
      var y := c.1 - 1;
      assert InGrid((c.0, y + 1), e.width, e.height);
    }
  }

  lemma Moved(queue: seq<Item>, popped: seq<Item>, b: nat)
    requires NoneTwice(queue + popped) && b < |queue|
    ensures NoneTwice((queue[..b] + queue[b + 1..]) + (popped + [queue[b]]))
    ensures forall it :: it in (queue[..b] + queue[b + 1..]) + (popped + [queue[b]]) <==> it in queue + popped
    ensures forall it :: it in queue <==> it in queue[..b] + queue[b + 1..] || it == queue[b]
  {
    var all, more := queue + popped, (queue[..b] + queue[b + 1..]) + (popped + [queue[b]]);
    forall i | 0 <= i < |more| ensures more[i] == all[if i < b then i else if i < |more| - 1 then i + 1 else b] {
    }
    forall i | 0 <= i < |all| ensures all[i] in more {
      assert all[i] == more[if i < b then i else if i == b then |more| - 1 else i - 1];
    }
  }

  lemma OneMore(queue: seq<Item>, popped: seq<Item>, x: Item)
    requires NoneTwice(queue + popped) && x !in queue + popped
    ensures NoneTwice((queue + [x]) + popped)
    ensures forall it :: it in (queue + [x]) + popped <==> it in queue + popped || it == x
  {
    var more := (queue + [x]) + popped;
    forall i, j | 0 <= i < j < |more| ensures more[i] != more[j] {
      assert i < |queue| ==> more[i] == (queue + popped)[i];
      assert i > |queue| ==> more[i] == (queue + popped)[i - 1];
      assert j < |queue| ==> more[j] == (queue + popped)[j];
      assert j > |queue| ==> more[j] == (queue + popped)[j - 1];
    }
  }
}
