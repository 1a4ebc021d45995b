/** The linked queues of new connections and the freelist of their items (lmserver/thread.c, cq_push, cq_peek,
    cq_pop, cqi_new and cqi_free). */
module ConnQueue {
  const ITEMS_PER_ALLOC: nat := 64

  /** A connection to be set up; sfd stands for everything that is handed over. */
  class Item {
    var sfd: int
    var next: Item?

    constructor ()
      ensures next == null
    {
      sfd, next := 0, null;
    }
  }

  /** The items are distinct, and each but the last is followed by the next. */
  ghost predicate Linked(items: seq<Item>, end: Item?)
    reads items
  {
    && (forall i, j :: 0 <= i < j < |items| ==> items[i] != items[j])
    && (forall i :: 0 <= i < |items| - 1 ==> items[i].next == items[i + 1])
    && (items != [] ==> items[|items| - 1].next == end)
  }

  function First(items: seq<Item>): Item? {
    if items == [] then null else items[0]
  }

  class CQ {
    var head: Item?
    var tail: Item?
    ghost var items: seq<Item>

    ghost predicate Valid()
      reads this, items
    {
      && Linked(items, null)
      && head == First(items)
      && tail == if items == [] then null else items[|items| - 1]
    }

    ghost function Last(): set<Item>
      reads this`items
    {
      if items == [] then {} else {items[|items| - 1]}
    }

    constructor ()
      ensures Valid() && items == []
    {
      head, tail, items := null, null, [];
    }

    /** Adds an item at the end. */
    method Push(item: Item)
      requires Valid() && item !in items
      modifies this, item`next, Last()`next
      ensures Valid() && items == old(items) + [item]
    {
      item.next := null;
      if tail == null {
        head := item;
      } else {
        tail.next := item;
      }
      tail := item;
      items := items + [item];
    }

    /** Takes the first item, if there is one. Its own pointer still leads into the queue. */
    method Peek() returns (item: Item?)
      requires Valid()
      modifies this
      ensures Valid() && item == First(old(items))
      ensures items == if old(items) == [] then [] else old(items)[1..]
    {
      item := head;
      if item != null {
        head := item.next;
        if head == null {
          tail := null;
        }
        items := items[1..];
      }
    }

    /** Takes the first item; a caller waits until there is one. */
    method Pop() returns (item: Item)
      requires Valid() && items != []
      modifies this
      ensures Valid() && item == old(items[0]) && items == old(items)[1..]
    {
      item := head;
      head := item.next;
      if head == null {
        tail := null;
      }
      items := items[1..];
    }
  }

  /** All different, and none of the others. */
  ghost predicate Unlike(block: seq<Item>, others: seq<Item>) {
    && (forall i, j :: 0 <= i < j < |block| ==> block[i] != block[j])
    && forall i, j :: 0 <= i < |block| && 0 <= j < |others| ==> block[i] != others[j]
  }

  class Freelist {
    var first: Item?
    ghost var items: seq<Item>

    ghost predicate Valid()
      reads this, items
    {
      Linked(items, null) && first == First(items)
    }

    constructor ()
      ensures Valid() && items == []
    {
      first, items := null, [];
    }

    /** The first free item, if there is one. */
    method Take() returns (item: Item?)
      requires Valid()
      modifies this
      ensures Valid() && item == First(old(items)) && (item != null ==> item !in items)
      ensures items == if old(items) == [] then [] else old(items)[1..]
    {
      item := first;
      if item != null {
        first := item.next;
        items := items[1..];
      }
    }

    /** Puts items 1 to 63 of a block in front. */
    method AddBlock(block: array<Item>)
      requires Valid() && block.Length == ITEMS_PER_ALLOC && Unlike(block[..], items)
      modifies this, (set x | x in block[..])`next
      ensures Valid() && items == block[1..] + old(items)
    {
      var i := 2;
      while i < ITEMS_PER_ALLOC
        invariant 2 <= i <= ITEMS_PER_ALLOC
        invariant forall j :: 1 <= j < i - 1 ==> block[j].next == block[j + 1]
        invariant Valid()
        modifies (set x | x in block[..])`next
      {
        block[i - 1].next := block[i];
        i := i + 1;
      }
      block[ITEMS_PER_ALLOC - 1].next := first;
      first := block[1];
      items := block[1..] + items;
    }

    /** The first item of a new block, the others of which become free. */
    method NewItem(sfd: int) returns (item: Item, ghost block: seq<Item>)
      requires Valid()
      modifies this
      ensures Valid() && |block| == ITEMS_PER_ALLOC && item == block[0] && item.sfd == sfd && items == block[1..] + old(items)
      ensures forall i :: 0 <= i < |block| ==> fresh(block[i])
      ensures forall i, j :: 0 <= i < j < |block| ==> block[i] != block[j]
    {
      var items' := NewBlock();
      block := items'[..];
      AddBlock(items');
      item := items'[0];
      item.sfd := sfd;
    }

    method Free(item: Item)
      requires Valid() && item !in items
      modifies this, item`next
      ensures Valid() && items == [item] + old(items)
    {
      item.next := first;
      first := item;
      items := [item] + items;
    }
  }

  method NewBlock() returns (block: array<Item>)
    ensures fresh(block) && block.Length == ITEMS_PER_ALLOC
    ensures forall i :: 0 <= i < block.Length ==> fresh(block[i])
    ensures forall i, j :: 0 <= i < j < block.Length ==> block[i] != block[j]
  {
    var item := new Item();
    block := new Item[ITEMS_PER_ALLOC](_ => item);
    var i := 1;
    while i < ITEMS_PER_ALLOC
      invariant 1 <= i <= ITEMS_PER_ALLOC
      invariant forall k :: 0 <= k < ITEMS_PER_ALLOC ==> fresh(block[k])
      invariant forall j, k :: 0 <= j < k < i ==> block[j] != block[k]
    {
      var item' := new Item();
      block[i] := item';
      i := i + 1;
    }
  }
}
