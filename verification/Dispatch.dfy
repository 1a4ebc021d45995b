/** The dispatcher and the worker threads, as steps that may interleave in any way (lmserver/thread.c,
    dispatch_conn_new and thread_libevent_process). Each step is one critical section or one pipe operation; pipe
    reads and writes succeed. */
module Dispatch {
  import opened ConnQueue

  /** Where the dispatcher is: between connections, without an item, with one, or before the wake-up. */
  datatype Dispatcher = Idle | NoItem(sfd: int, thread: nat) | HasItem(item: Item, sfd: int, thread: nat) | Pushed(thread: nat)

  /** Where a worker is: in its event loop, between reading the wake-up and the queue, or with an item. */
  datatype Worker = Waiting | Woken | Holding(item: Item)

  datatype Owner = Free | InQueue(thread: nat) | OfDispatcher | OfWorker(thread: nat)

  type Owners = map<Item, Owner>

  /** All items of the list have the same owner. */
  ghost predicate Owns(owner: Owners, items: seq<Item>, o: Owner) {
    forall i :: 0 <= i < |items| ==> items[i] in owner && owner[items[i]] == o
  }

  /** No item is in two places. */
  ghost predicate Apart(owner: Owners, free: seq<Item>, lists: seq<seq<Item>>, dispatcher: Dispatcher, workers: seq<Worker>) {
    && Owns(owner, free, Free)
    && (forall w :: 0 <= w < |lists| ==> Owns(owner, lists[w], InQueue(w)))
    && (dispatcher.HasItem? ==> dispatcher.item in owner && owner[dispatcher.item] == OfDispatcher)
    && (forall w :: 0 <= w < |workers| && workers[w].Holding? ==>
          workers[w].item in owner && owner[workers[w].item] == OfWorker(w))
  }

  /** The queue is well formed and holds the connections that are pending, in order. */
  ghost predicate Holds(q: CQ, pending: seq<int>)
    reads q, q.items
  {
    q.Valid() && |q.items| == |pending| && forall i :: 0 <= i < |pending| ==> q.items[i].sfd == pending[i]
  }

  /** The first connection goes to thread 0, every other to the thread after the last one. */
  ghost predicate InTurn(targets: seq<nat>, n: nat) {
    forall k :: 0 <= k < |targets| ==> targets[k] < n && targets[k] == (if k == 0 || targets[k - 1] + 1 == n then 0 else targets[k - 1] + 1)
  }

  /** The part of the state that is not linked lists. */
  datatype State = State(pipes: seq<nat>, lastThread: int, dispatcher: Dispatcher, workers: seq<Worker>,
                         pending: seq<seq<int>>, pushed: seq<seq<int>>, handled: seq<seq<int>>, targets: seq<nat>)
  {
    ghost predicate Shape(n: nat) {
      n > 0 && |pipes| == |workers| == |pending| == |pushed| == |handled| == n
    }

    /** Every wake-up that is written, due or just read stands for one pending connection. */
    ghost predicate Counted(w: nat)
      requires Shape(|pipes|) && w < |pipes|
    {
      |pending[w]| == pipes[w] + (if dispatcher == Pushed(w) then 1 else 0) + (if workers[w].Woken? then 1 else 0)
    }

    /** Nothing is lost, doubled or overtaken between the dispatcher and the thread. */
    ghost predicate InOrder(w: nat)
      requires Shape(|pipes|) && w < |pipes|
    {
      pushed[w] == handled[w] + pending[w]
    }

    /** Connections go to the threads in turn. */
    ghost predicate RoundRobin() {
      && |pipes| > 0
      && lastThread == (if targets == [] then -1 else targets[|targets| - 1])
      && InTurn(targets, |pipes|)
      && (!dispatcher.Idle? ==> dispatcher.thread == lastThread)
    }

    ghost predicate Good(n: nat) {
      Shape(n) && RoundRobin() && forall w :: 0 <= w < n ==> Counted(w) && InOrder(w)
    }

    /** The dispatcher has chosen the next thread, and taken an item if there was one. */
    ghost function Begun(d: Dispatcher): State
      requires |pipes| > 0 && lastThread >= -1
    {
      var thread := (lastThread + 1) % |pipes|;
      this.(dispatcher := d, lastThread := thread, targets := targets + [thread])
    }

    /** The dispatcher has pushed a connection. */
    ghost function Push(w: nat, sfd: int): State
      requires w < |pending| && w < |pushed|
    {
      this.(dispatcher := Pushed(w), pending := pending[w := pending[w] + [sfd]], pushed := pushed[w := pushed[w] + [sfd]])
    }

    /** The dispatcher has written a wake-up. */
    ghost function Written(w: nat): State
      requires w < |pipes|
    {
      this.(dispatcher := Idle, pipes := pipes[w := pipes[w] + 1])
    }

    /** The worker has read a wake-up. */
    ghost function WakeUp(w: nat): State
      requires w < |pipes| && w < |workers| && pipes[w] > 0
    {
      this.(pipes := pipes[w := pipes[w] - 1], workers := workers[w := Woken])
    }

    /** The worker has taken the first pending connection. */
    ghost function Taken(w: nat, item: Item, sfd: int): State
      requires w < |workers| && w < |pending| && w < |handled| && pending[w] != []
    {
      this.(workers := workers[w := Holding(item)], pending := pending[w := pending[w][1..]],
      handled := handled[w := handled[w] + [sfd]])
    }
  }

  class Server {
    const queues: seq<CQ>
    const freelist: Freelist
    var st: State
    /** Who has each item. */
    ghost var owner: Owners

    /** The items in each queue. */
    ghost function Lists(): (l: seq<seq<Item>>)
      reads queues
      ensures |l| == |queues| && forall w :: 0 <= w < |l| ==> l[w] == queues[w].items
    {
      seq(|queues|, w requires 0 <= w < |queues| reads queues => queues[w].items)
    }

    ghost predicate Owned()
      reads this, queues, freelist
    {
      Apart(owner, freelist.items, Lists(), st.dispatcher, st.workers)
    }

    ghost predicate Distinct() {
      forall v, w :: 0 <= v < w < |queues| ==> queues[v] != queues[w]
    }

    ghost predicate Valid()
      reads this, queues, freelist, owner.Keys
    {
      && Distinct() && st.Good(|queues|) && Owned()
      && freelist.Valid()
      && (st.dispatcher.HasItem? ==> st.dispatcher.item in owner && st.dispatcher.item.sfd == st.dispatcher.sfd)
      && forall w :: 0 <= w < |queues| ==> Holds(queues[w], st.pending[w])
    }

    constructor (numThreads: nat)
      requires numThreads > 0
      ensures Valid() && |queues| == numThreads && st.dispatcher == Idle && st.targets == []
      ensures fresh(freelist) && forall q :: q in queues ==> fresh(q)
    {
      var none := seq(numThreads, _ => []);
      var qs := NewQueues(numThreads);
      queues := qs;
      freelist := new Freelist();
      st := State(seq(numThreads, _ => 0), -1, Idle, seq(numThreads, _ => Waiting), none, none, none, []);
      owner := map[];
    }

    /** A wake-up is read. */
    method ReadPipe(w: nat)
      requires Valid() && w < |queues| && st.workers[w].Waiting? && st.pipes[w] > 0
      modifies this`st
      ensures Valid() && st == old(st).WakeUp(w)
    {
      hide Owns, Holds;
      WakeUpGood(st, |queues|, w);
      st := st.(pipes := st.pipes[w := st.pipes[w] - 1], workers := st.workers[w := Woken]);
    }

    /** The worker that was woken takes an item: there always is one, the oldest that is pending for the thread. */
    method PeekQueue(w: nat)
      requires Valid() && w < |queues| && st.workers[w].Woken?
      modifies this`st, this`owner, queues[w]
      ensures Valid() && st.workers[w].Holding?
      ensures old(st.pending[w]) == [st.workers[w].item.sfd] + st.pending[w]
      ensures st == old(st).Taken(w, st.workers[w].item, st.workers[w].item.sfd)
    {
      hide Apart, State.Good, Holds, Lists;
      GoodShape(st, |queues|);
      ghost var lists := Lists();
      var item := TakeFirst(w);
      assert Lists() == lists[w := lists[w][1..]];
      TakenApart(owner, freelist.items, lists, st.dispatcher, st.workers, w);
      TakenGood(st, |queues|, w, item);
      var sfd := item.sfd;
      st := st.(workers := st.workers[w := Holding(item)], pending := st.pending[w := st.pending[w][1..]],
      handled := st.handled[w := st.handled[w] + [sfd]]);
      owner := owner[item := OfWorker(w)];
    }

    /** The worker gives its item back. */
    method FreeItem(w: nat)
      requires Valid() && w < |queues| && st.workers[w].Holding?
      modifies this`st, this`owner, freelist, {st.workers[w].item}`next
      ensures Valid() && st == old(st).(workers := old(st.workers)[w := Waiting])
    {
      hide Apart, State.Good, Holds, Lists;
      GoodShape(st, |queues|);
      var item := st.workers[w].item;
      HeldApart(owner, freelist.items, Lists(), st.dispatcher, st.workers, item);
      FreedApart(owner, freelist.items, Lists(), st.dispatcher, st.workers, w);
      FreedGood(st, |queues|, w);
      freelist.Free(item);
      owner := owner[item := Free];
      st := st.(workers := st.workers[w := Waiting]);
    }

    /** A connection arrives: the next thread in turn gets it; an item is taken from the freelist if there is one. */
    method BeginDispatch(sfd: int)
      requires Valid() && st.dispatcher.Idle?
      modifies this`st, this`owner, freelist, freelist.items`sfd
      ensures Valid() && (st.dispatcher.NoItem? || st.dispatcher.HasItem?) && st.dispatcher.sfd == sfd
      ensures st == old(st).Begun(st.dispatcher)
    {
      hide Apart, State.Good, Holds, Lists;
      GoodShape(st, |queues|);
      var thread := (st.lastThread + 1) % |queues|;
      ghost var free := freelist.items;
      var item := freelist.Take();
      if item == null {
        BegunGood(st, |queues|, NoItem(sfd, thread));
        NoItemApart(owner, free, Lists(), st.dispatcher, st.workers, NoItem(sfd, thread));
        st := st.(dispatcher := NoItem(sfd, thread), lastThread := thread, targets := st.targets + [thread]);
      } else {
        BegunGood(st, |queues|, HasItem(item, sfd, thread));
        TookApart(owner, free, Lists(), st.dispatcher, st.workers, HasItem(item, sfd, thread));
        item.sfd := sfd;
        owner := owner[item := OfDispatcher];
        st := st.(dispatcher := HasItem(item, sfd, thread), lastThread := thread, targets := st.targets + [thread]);
      }
    }

    /** Without a free item, a new block is made; its first item is used and the others are free. */
    method AllocateBlock()
      requires Valid() && st.dispatcher.NoItem?
      modifies this`st, this`owner, freelist
      ensures Valid() && st.dispatcher.HasItem? && fresh(st.dispatcher.item)
      ensures st == old(st).(dispatcher := HasItem(st.dispatcher.item, old(st.dispatcher.sfd), old(st.dispatcher.thread)))
    {
      hide Apart, State.Good, Holds, Lists, Unlike, Linked;
      GoodShape(st, |queues|);
      ghost var free := freelist.items;
      var item; ghost var items;
      item, items := freelist.NewItem(st.dispatcher.sfd);
      var d := HasItem(item, st.dispatcher.sfd, st.dispatcher.thread);
      ItemChosenGood(st, |queues|, d);
      BlockApart(owner, free, Lists(), st.dispatcher, st.workers, items, d);
      owner := WithBlock(owner, items);
      st := st.(dispatcher := d);
    }

    /** The item is put at the end of the thread's queue. */
    method PushItem()
      requires Valid() && st.dispatcher.HasItem?
      modifies this`st, this`owner
      modifies if st.dispatcher.thread < |queues| then {queues[st.dispatcher.thread]} else {}
      modifies (if st.dispatcher.thread < |queues| then queues[st.dispatcher.thread].Last() + {st.dispatcher.item} else {})`next
      ensures Valid() && st == old(st).Push(old(st.dispatcher.thread), old(st.dispatcher.sfd))
    {
      hide Apart, State.Good, Holds, Lists, Linked;
      GoodShape(st, |queues|);
      ThreadInRange(st, |queues|);
      var w, item, sfd := st.dispatcher.thread, st.dispatcher.item, st.dispatcher.sfd;
      ghost var lists := Lists();
      HeldApart(owner, freelist.items, lists, st.dispatcher, st.workers, item);
      PushedApart(owner, freelist.items, lists, st.dispatcher, st.workers, w);
      PushedGood(st, |queues|);
      PutLast(w, item, sfd);
      assert Lists() == lists[w := lists[w] + [item]];
      owner := owner[item := InQueue(w)];
      st := st.(dispatcher := Pushed(w), pending := st.pending[w := st.pending[w] + [sfd]], pushed := st.pushed[w := st.pushed[w] + [sfd]]);
    }

    method PutLast(w: nat, item: Item, sfd: int)
      requires w < |queues| && w < |st.pending| && Holds(queues[w], st.pending[w]) && item !in queues[w].items && item.sfd == sfd
      modifies queues[w], (queues[w].Last() + {item})`next
      ensures Holds(queues[w], st.pending[w] + [sfd]) && queues[w].items == old(queues[w].items) + [item]
    {
      queues[w].Push(item);
    }

    /** The thread's wake-up is written. */
    method WritePipe()
      requires Valid() && st.dispatcher.Pushed?
      modifies this`st
      ensures Valid() && st == old(st).Written(old(st.dispatcher.thread))
    {
      hide Apart, State.Good, Holds, Lists;
      GoodShape(st, |queues|);
      WrittenGood(st, |queues|);
      NoItemApart(owner, freelist.items, Lists(), st.dispatcher, st.workers, Idle);
      var w := st.dispatcher.thread;
      st := st.(dispatcher := Idle, pipes := st.pipes[w := st.pipes[w] + 1]);
    }

    method TakeFirst(w: nat) returns (item: Item)
      requires Valid() && w < |queues| && st.workers[w].Woken?
      modifies queues[w]
      ensures old(queues[w].items) == [item] + queues[w].items && old(st.pending[w]) == [item.sfd] + old(st.pending[w])[1..]
      ensures Holds(queues[w], old(st.pending[w])[1..])
      ensures forall i :: 0 <= i < |queues[w].items| ==> queues[w].items[i] != item
    {
      hide Apart, State.Good;
      PendingIsThere(st, |queues|, w);
      item := queues[w].Peek();
    }
  }

  /** An item that a worker or the dispatcher has is in no list. */
  lemma HeldApart(owner: Owners, free: seq<Item>, lists: seq<seq<Item>>, dispatcher: Dispatcher, workers: seq<Worker>, item: Item)
    requires Apart(owner, free, lists, dispatcher, workers)
    requires (dispatcher.HasItem? && dispatcher.item == item) || exists w :: 0 <= w < |workers| && workers[w] == Holding(item)
    ensures item in owner && item !in free && forall w :: 0 <= w < |lists| ==> item !in lists[w]
  {}

  lemma FreedApart(owner: Owners, free: seq<Item>, lists: seq<seq<Item>>, dispatcher: Dispatcher, workers: seq<Worker>, w: nat)
    requires Apart(owner, free, lists, dispatcher, workers) && w < |workers| && workers[w].Holding?
    ensures Apart(owner[workers[w].item := Free], [workers[w].item] + free, lists, dispatcher, workers[w := Waiting])
  {}

  lemma FreedGood(st: State, n: nat, w: nat)
    requires st.Good(n) && w < n && st.workers[w].Holding?
    ensures st.(workers := st.workers[w := Waiting]).Good(n)
  {
    var st' := st.(workers := st.workers[w := Waiting]);
    assert st'.Shape(n);
    forall v | 0 <= v < n ensures st'.Counted(v) && st'.InOrder(v) {
      assert st.Counted(v) && st.InOrder(v);
    }
  }

  lemma NoItemApart(owner: Owners, free: seq<Item>, lists: seq<seq<Item>>, dispatcher: Dispatcher, workers: seq<Worker>,
                    dispatcher': Dispatcher)
    requires Apart(owner, free, lists, dispatcher, workers) && !dispatcher'.HasItem?
    ensures Apart(owner, free, lists, dispatcher', workers)
  {}

  lemma TookApart(owner: Owners, free: seq<Item>, lists: seq<seq<Item>>, dispatcher: Dispatcher, workers: seq<Worker>,
                  dispatcher': Dispatcher)
    requires Apart(owner, free, lists, dispatcher, workers) && free != [] && dispatcher'.HasItem? && dispatcher'.item == free[0]
    requires !dispatcher.HasItem? && forall i :: 0 < i < |free| ==> free[i] != free[0]
    ensures Apart(owner[free[0] := OfDispatcher], free[1..], lists, dispatcher', workers)
    ensures forall w :: 0 <= w < |lists| ==> free[0] !in lists[w]
  {}

  /** The first item of a new block is the dispatcher's, the others are free. */
  function WithBlock(owner: Owners, block: seq<Item>): Owners
    requires block != []
  {
    (owner + map x | x in block :: Free)[block[0] := OfDispatcher]
  }

  lemma BlockApart(owner: Owners, free: seq<Item>, lists: seq<seq<Item>>, dispatcher: Dispatcher, workers: seq<Worker>,
                   block: seq<Item>, dispatcher': Dispatcher)
    requires Apart(owner, free, lists, dispatcher, workers) && block != [] && dispatcher'.HasItem? && dispatcher'.item == block[0]
    requires !dispatcher.HasItem? && (forall i :: 0 <= i < |block| ==> block[i] !in owner)
    requires forall i, j :: 0 <= i < j < |block| ==> block[i] != block[j]
    ensures Apart(WithBlock(owner, block), block[1..] + free, lists, dispatcher', workers) && block[0] in WithBlock(owner, block)
    ensures forall w :: 0 <= w < |lists| ==> block[0] !in lists[w]
  {}

  lemma BegunGood(st: State, n: nat, d: Dispatcher)
    requires st.Good(n) && st.dispatcher.Idle? && !d.Idle? && !d.Pushed? && d.thread == (st.lastThread + 1) % n
    ensures st.lastThread >= -1 && st.Begun(d).Good(n)
  {
    GoodShape(st, n);
    var st' := st.Begun(d);
    NextThread(st.lastThread, n);
    assert st'.Shape(n);
    assert st'.RoundRobin();
    forall v | 0 <= v < n ensures st'.Counted(v) && st'.InOrder(v) {
      assert st.Counted(v) && st.InOrder(v);
    }
  }

  lemma NextThread(last: int, n: nat)
    requires -1 <= last < n && n > 0
    ensures (last + 1) % n == if last + 1 == n then 0 else last + 1
  {}

  /** Among n dispatches in a row every thread gets one. */
  lemma EveryThreadIsServed(targets: seq<nat>, n: nat, start: nat, w: nat) returns (k: nat)
    requires InTurn(targets, n) && start + n <= |targets| && w < n
    ensures start <= k < start + n && targets[k] == w
    ensures forall j :: start <= j < start + n && targets[j] == w ==> j == k
  {
    forall j | start <= j < start + n ensures targets[j] == Shifted(targets[start], j - start, n) {
      TurnAt(targets, n, start, j - start);
    }
    k := start + if targets[start] <= w then w - targets[start] else w + n - targets[start];
  }

  function Shifted(first: nat, i: nat, n: nat): int {
    if first + i < n then first + i else first + i - n
  }

  lemma {:induction false} TurnAt(targets: seq<nat>, n: nat, start: nat, i: nat)
    requires InTurn(targets, n) && start + i < |targets| && i < n
    ensures targets[start + i] == Shifted(targets[start], i, n)
  {
    assert targets[start] < n;
    if i > 0 {
      TurnAt(targets, n, start, i - 1);
      assert start + i - 1 == start + (i - 1);
      assert targets[start + i] == if targets[start + i - 1] + 1 == n then 0 else targets[start + i - 1] + 1;
    }
  }

  lemma PushedApart(owner: Owners, free: seq<Item>, lists: seq<seq<Item>>, dispatcher: Dispatcher, workers: seq<Worker>, w: nat)
    requires Apart(owner, free, lists, dispatcher, workers) && dispatcher.HasItem? && w < |lists|
    ensures Apart(owner[dispatcher.item := InQueue(w)], free, lists[w := lists[w] + [dispatcher.item]], Pushed(w), workers)
    ensures forall v :: 0 <= v < |lists| && v != w && lists[w] != [] ==> lists[w][|lists[w]| - 1] !in lists[v]
    ensures lists[w] != [] ==> lists[w][|lists[w]| - 1] !in free
  {}

  lemma PushedGood(st: State, n: nat)
    requires st.Good(n) && st.dispatcher.HasItem?
    ensures st.dispatcher.thread < n && st.Push(st.dispatcher.thread, st.dispatcher.sfd).Good(n)
  {
    ThreadInRange(st, n);
    var st' := st.Push(st.dispatcher.thread, st.dispatcher.sfd);
    assert st'.Shape(n);
    forall v | 0 <= v < n ensures st'.Counted(v) && st'.InOrder(v) {
      assert st.Counted(v) && st.InOrder(v);
    }
  }

  lemma ItemChosenGood(st: State, n: nat, d: Dispatcher)
    requires st.Good(n) && st.dispatcher.NoItem? && d.HasItem? && d.thread == st.dispatcher.thread
    ensures st.(dispatcher := d).Good(n)
  {
    var st' := st.(dispatcher := d);
    assert st'.Shape(n);
    forall v | 0 <= v < n ensures st'.Counted(v) && st'.InOrder(v) {
      assert st.Counted(v) && st.InOrder(v);
    }
  }

  lemma WrittenGood(st: State, n: nat)
    requires st.Good(n) && st.dispatcher.Pushed?
    ensures st.dispatcher.thread < n && st.Written(st.dispatcher.thread).Good(n)
  {
    ThreadInRange(st, n);
    var st' := st.Written(st.dispatcher.thread);
    assert st'.Shape(n);
    forall v | 0 <= v < n ensures st'.Counted(v) && st'.InOrder(v) {
      assert st.Counted(v) && st.InOrder(v);
    }
  }

  lemma ThreadInRange(st: State, n: nat)
    requires st.Good(n) && !st.dispatcher.Idle?
    ensures st.dispatcher.thread < n
  {
    assert st.targets != [] ==> st.targets[|st.targets| - 1] < n;
  }

  lemma GoodShape(st: State, n: nat)
    requires st.Good(n)
    ensures st.Shape(n) && -1 <= st.lastThread < n
  {
    assert st.targets != [] ==> st.targets[|st.targets| - 1] < n;
  }

  lemma TakenApart(owner: Owners, free: seq<Item>, lists: seq<seq<Item>>, dispatcher: Dispatcher, workers: seq<Worker>, w: nat)
    requires Apart(owner, free, lists, dispatcher, workers) && w < |lists| && w < |workers| && lists[w] != []
    requires forall i :: 0 < i < |lists[w]| ==> lists[w][i] != lists[w][0]
    ensures Apart(owner[lists[w][0] := OfWorker(w)], free, lists[w := lists[w][1..]], dispatcher, workers[w := Holding(lists[w][0])])
  {}

  lemma WakeUpGood(st: State, n: nat, w: nat)
    requires st.Good(n) && w < n && st.workers[w].Waiting? && st.pipes[w] > 0
    ensures st.WakeUp(w).Good(n)
  {
    var st' := st.WakeUp(w);
    assert st'.Shape(n);
    forall v | 0 <= v < n ensures st'.Counted(v) && st'.InOrder(v) {
      assert st.Counted(v) && st.InOrder(v);
    }
  }

  lemma PendingIsThere(st: State, n: nat, w: nat)
    requires st.Good(n) && w < n && st.workers[w].Woken?
    ensures st.pending[w] != []
  {
    assert st.Counted(w);
  }

  /** With no wake-up left, due or just read for a thread, it has taken all its connections, in the order of arrival. */
  lemma NothingForgotten(st: State, n: nat, w: nat)
    requires st.Good(n) && w < n && st.pipes[w] == 0 && st.dispatcher != Pushed(w) && !st.workers[w].Woken?
    ensures st.handled[w] == st.pushed[w]
  {
    assert st.Counted(w) && st.InOrder(w);
  }

  lemma TakenGood(st: State, n: nat, w: nat, item: Item)
    requires st.Good(n) && w < n && st.workers[w].Woken? && st.pending[w] != []
    ensures st.Taken(w, item, st.pending[w][0]).Good(n)
  {
    var st' := st.Taken(w, item, st.pending[w][0]);
    assert st'.Shape(n);
    forall v | 0 <= v < n ensures st'.Counted(v) && st'.InOrder(v) {
      assert st.Counted(v) && st.InOrder(v);
    }
  }

  method NewQueues(n: nat) returns (qs: seq<CQ>)
    ensures |qs| == n && forall w :: 0 <= w < n ==> fresh(qs[w]) && qs[w].Valid() && qs[w].items == []
    ensures forall v, w :: 0 <= v < w < n ==> qs[v] != qs[w]
  {
    qs := [];
    while |qs| < n
      invariant |qs| <= n && forall w :: 0 <= w < |qs| ==> fresh(qs[w]) && qs[w].Valid() && qs[w].items == []
      invariant forall v, w :: 0 <= v < w < |qs| ==> qs[v] != qs[w]
    {
      var q := new CQ();
      qs := qs + [q];
    }
  }
}
