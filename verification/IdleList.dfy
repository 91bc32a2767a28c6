/** The intrusive, doubly linked list of idle connections (connection_pool.h). */
module IdleList {

  /** A list item, with the connection object that shares its block. */
  class ListItem {
    var activeTime: int
    var createTime: int
    var next: ListItem?
    var prev: ListItem?

    constructor (now: int)
      ensures activeTime == now && createTime == now && next == null && prev == null
    {
      activeTime, createTime, next, prev := now, now, null, null;
    }
  }

  ghost predicate Distinct(q: seq<ListItem>) {
    forall i, j :: 0 <= i < j < |q| ==> q[i] != q[j]
  }

  class List {
    var count: int
    var front: ListItem?
    var back: ListItem?
    // The items from front to back.
    ghost var items: seq<ListItem>

    ghost predicate Linked(i: nat)
      requires i < |items|
      reads this, items
    {
      && items[i].next == (if i + 1 < |items| then items[i + 1] else null)
      && items[i].prev == (if i > 0 then items[i - 1] else null)
    }

    ghost predicate Valid()
      reads this, items
    {
      && count == |items|
      && Distinct(items)
      && front == (if items == [] then null else items[0])
      && back == (if items == [] then null else items[|items| - 1])
      && forall i :: 0 <= i < |items| ==> Linked(i)
    }

    /** The end pointers show the ends of the list, and are null only when it is empty. */
    lemma Ends()
      requires Valid()
      ensures front == (if items == [] then null else items[0])
      ensures back == (if items == [] then null else items[|items| - 1])
      ensures count == |items|
    {}

    constructor ()
      ensures Valid() && items == []
    {
      count, front, back, items := 0, null, null, [];
    }

    method PushFront(item: ListItem)
      requires Valid() && item !in items
      modifies this, item`next, item`prev, items`prev
      ensures Valid() && items == [item] + old(items)
    {
      item.next := front;
      item.prev := null;
      if count == 0 {
        back := item;
      } else {
        front.prev := item;
      }
      front := item;
      count := count + 1;
      items := [item] + items;
      forall i | 0 <= i < |items| ensures Linked(i) {
        if i > 0 { assert old(Linked(i - 1)); }
      }
    }

    method PopFront()
      requires Valid()
      modifies this, items`next, items`prev
      ensures Valid() && items == if old(items) == [] then [] else old(items)[1..]
    {
      if count == 0 { return; }
      assert Linked(0);
      count := count - 1;
      var item := front;
      if count == 0 {
        front := null;
        back := null;
      } else {
        item.next.prev := null;
        front := item.next;
      }
      item.next := null;
      item.prev := null;
      items := items[1..];
      forall i | 0 <= i < |items| ensures Linked(i) { assert old(Linked(i + 1)); }
    }

    method PopBack()
      requires Valid()
      modifies this, items`next, items`prev
      ensures Valid() && items == if old(items) == [] then [] else old(items)[..|old(items)| - 1]
    {
      if count == 0 { return; }
      assert Linked(|items| - 1);
      count := count - 1;
      var item := back;
      if count == 0 {
        front := null;
        back := null;
      } else {
        item.prev.next := null;
        back := item.prev;
      }
      item.next := null;
      item.prev := null;
      items := items[..|items| - 1];
      forall i | 0 <= i < |items| ensures Linked(i) { assert old(Linked(i)); }
    }
  }
}
