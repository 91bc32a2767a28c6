/** The first-in-first-out list of callbacks (async.c). */
module Callbacks {
  import opened Bytes

  // A callback function and the data it is called with; 0 stands for NULL.
  const NO_FUNCTION: nat := 0

  datatype Callback = Callback(fn: nat, privdata: nat, pendingSubs: int)

  class Node {
    const cb: Callback
    var next: Node?
    ghost const owner: CallbackList

    constructor (cb: Callback, ghost owner: CallbackList)
      ensures this.cb == cb && this.owner == owner && next == null
    {
      this.cb, this.owner, this.next := cb, owner, null;
    }
  }

  ghost function Item(nodes: seq<Node>, i: nat): Node? {
    if i < |nodes| then nodes[i] else null
  }

  class CallbackList {
    var head: Node?
    var tail: Node?
    // What is queued, from head to tail, and every node that was ever in the list.
    ghost var contents: seq<Callback>
    ghost var nodes: seq<Node>
    ghost var repr: set<Node>

    ghost predicate Linked(i: nat)
      requires i < |nodes| == |contents| && nodes[i] in repr
      reads `nodes, `contents, `repr, repr
    {
      nodes[i].cb == contents[i] && nodes[i].next == Item(nodes, i + 1)
    }

    ghost predicate Valid()
      reads this, repr
    {
      && |nodes| == |contents|
      && (forall i :: 0 <= i < |nodes| ==> nodes[i] in repr)
      && (forall i :: 0 <= i < |nodes| ==> Linked(i))
      && (forall i, j :: 0 <= i < j < |nodes| ==> nodes[i] != nodes[j])
      && (forall n :: n in repr ==> n.owner == this)
      && head == Item(nodes, 0)
      && tail == if nodes == [] then null else nodes[|nodes| - 1]
    }

    constructor ()
      ensures Valid() && contents == [] && repr == {}
    {
      head, tail, contents, nodes, repr := null, null, [], [], {};
    }

    /** __redisPushCallback, of a copy of the source. */
    method Push(source: Callback)
      requires Valid()
      modifies this, repr
      ensures Valid() && contents == old(contents) + [source]
      ensures old(repr) <= repr && fresh(repr - old(repr))
    {
      var cb := new Node(source, this);
      if head == null { head := cb; }
      if tail != null { tail.next := cb; }
      tail := cb;
      contents, nodes, repr := contents + [source], nodes + [cb], repr + {cb};
      forall i | 0 <= i < |nodes| ensures Linked(i) {
        if i < |nodes| - 1 { assert old(Linked(i)); }
      }
    }

    /** __redisShiftCallback. */
    method Shift() returns (target: Option<Callback>)
      requires Valid()
      modifies this
      ensures Valid() && repr == old(repr)
      ensures old(contents) == [] ==> target == None && contents == []
      ensures old(contents) != [] ==> target == Some(old(contents)[0]) && contents == old(contents)[1..]
    {
      var cb := head;
      if cb == null { return None; }
      assert Linked(0);
      head := cb.next;
      if cb == tail { tail := null; }
      target := Some(cb.cb);
      contents, nodes := contents[1..], nodes[1..];
      forall i | 0 <= i < |nodes| ensures Linked(i) { assert old(Linked(i + 1)); }
    }
  }
}
