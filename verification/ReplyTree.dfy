/** Reply objects on the heap (hiredis.c) and the stack of tasks that fills them in
    (read.h): which shapes the reader keeps them in, step by step. */
module ReplyTree {
  import opened Bytes
  import opened Resp
  import opened Frames

  datatype ReplyType = Typed(t: ItemType) | NilReply

  /** redisReply. `val` records the reply a finished object stands for. */
  class ReplyObject {
    var kind: ReplyType
    var integer: int
    var str: Bytes
    var element: seq<ReplyObject?>
    ghost var val: Reply

    constructor (kind: ReplyType)
      ensures this.kind == kind && integer == 0 && str == [] && element == []
    {
      this.kind, integer, str, element, val := kind, 0, [], [], Nil;
    }

    /** One level of the object agrees with `val`, and what it links to is finished too. */
    ghost predicate Built(built: set<ReplyObject>)
      reads this, built
    {
      match val
      case Nil => kind == NilReply
      case Integer(v) => kind == Typed(TInteger) && integer == v
      case Status(t) => kind == Typed(TStatus) && str == t
      case Error(t) => kind == Typed(TError) && str == t
      case Str(t) => kind == Typed(TString) && str == t
      case Array(vs) =>
        && kind == Typed(TArray)
        && |element| == |vs|
        && forall i :: 0 <= i < |vs| ==> Holds(element[i], vs[i], built)
    }
  }

  ghost predicate Holds(o: ReplyObject?, v: Reply, built: set<ReplyObject>)
    reads built
  {
    o != null && o in built && o.val == v
  }

  /** The object tree at `o`, all of it inside `tree`, spells out the reply `v`: no
      slot is empty at any depth. */
  ghost predicate Represents(o: ReplyObject?, v: Reply, tree: set<ReplyObject>)
    reads tree
    decreases v
  {
    o != null && o in tree &&
    match v
    case Nil => o.kind == NilReply
    case Integer(n) => o.kind == Typed(TInteger) && o.integer == n
    case Status(t) => o.kind == Typed(TStatus) && o.str == t
    case Error(t) => o.kind == Typed(TError) && o.str == t
    case Str(t) => o.kind == Typed(TString) && o.str == t
    case Array(vs) =>
      && o.kind == Typed(TArray)
      && |o.element| == |vs|
      && forall i :: 0 <= i < |vs| ==> Represents(o.element[i], vs[i], tree)
  }

  ghost predicate AllBuilt(built: set<ReplyObject>)
    reads built
  {
    forall n {:trigger n.Built(built)} :: n in built ==> n.Built(built)
  }

  lemma {:induction false} BuiltRepresents(o: ReplyObject, v: Reply, tree: set<ReplyObject>)
    requires o in tree && o.val == v && AllBuilt(tree)
    ensures Represents(o, v, tree)
    decreases v
  {
    assert o.Built(tree);
    match v
    case Array(vs) =>
      forall i | 0 <= i < |vs| ensures Represents(o.element[i], vs[i], tree) {
        assert Holds(o.element[i], vs[i], tree);
        BuiltRepresents(o.element[i], vs[i], tree);
      }
    case _ =>
  }

  // ---- the open arrays ----

  /** The slots of an open array: built items, the one in the making, then none. */
  ghost predicate SlotsOk(o: ReplyObject, f: Frame, next: ReplyObject?, built: set<ReplyObject>)
    reads o, built
  {
    && f.Open()
    && o !in built
    && o.kind == Typed(TArray)
    && |o.element| == f.n
    && (forall j :: 0 <= j < |f.done| ==> Holds(o.element[j], f.done[j], built))
    && o.element[|f.done|] == next
    && forall j :: |f.done| < j < f.n ==> o.element[j] == null
  }

  ghost predicate NodeOk(nodes: seq<ReplyObject>, frames: seq<Frame>, slot: ReplyObject?, built: set<ReplyObject>, i: nat)
    requires i < |nodes| == |frames|
    reads nodes, built
  {
    SlotsOk(nodes[i], frames[i], if i + 1 < |nodes| then nodes[i + 1] else slot, built)
  }

  ghost predicate Distinct(nodes: seq<ReplyObject>) {
    forall i, j :: 0 <= i < j < |nodes| ==> nodes[i] != nodes[j]
  }

  /** `slot` is what the innermost open array holds at the current item's index. */
  ghost predicate Tree(nodes: seq<ReplyObject>, frames: seq<Frame>, slot: ReplyObject?, built: set<ReplyObject>)
    reads nodes, built
  {
    && |nodes| == |frames|
    && Distinct(nodes)
    && AllBuilt(built)
    && forall i :: 0 <= i < |nodes| ==> NodeOk(nodes, frames, slot, built, i)
  }

  /** A new object, finished at once, takes the slot. */
  lemma TreeBuilt(nodes: seq<ReplyObject>, frames: seq<Frame>, o: ReplyObject, built: set<ReplyObject>)
    requires Tree(nodes, frames, o, built) && o.Built(built) && o !in nodes
    ensures Tree(nodes, frames, o, built + {o})
  {
    forall i | 0 <= i < |nodes| ensures NodeOk(nodes, frames, o, built + {o}, i) {
      assert NodeOk(nodes, frames, o, built, i);
    }
    forall n | n in built + {o} ensures n.Built(built + {o}) { assert n.Built(built); }
  }

  /** The slot's object is counted as done; the next slot is empty. */
  lemma TreeNext(nodes: seq<ReplyObject>, frames: seq<Frame>, o: ReplyObject, built: set<ReplyObject>)
    requires Tree(nodes, frames, o, built) && o in built && nodes != []
    requires var f := frames[|frames| - 1]; |f.done| + 1 < f.n
    ensures var f := frames[|frames| - 1];
      Tree(nodes, frames[..|frames| - 1] + [Frame(f.n, f.done + [o.val])], null, built)
  {
    var f := frames[|frames| - 1];
    var frames' := frames[..|frames| - 1] + [Frame(f.n, f.done + [o.val])];
    forall i | 0 <= i < |nodes| ensures NodeOk(nodes, frames', null, built, i) {
      assert NodeOk(nodes, frames, o, built, i);
    }
  }

  /** A new array object takes the slot and becomes the innermost open array. */
  lemma TreeOpen(nodes: seq<ReplyObject>, frames: seq<Frame>, o: ReplyObject, built: set<ReplyObject>)
    requires Tree(nodes, frames, o, built) && o !in nodes && o !in built
    requires o.kind == Typed(TArray) && o.element != [] && forall j :: 0 <= j < |o.element| ==> o.element[j] == null
    ensures Tree(nodes + [o], frames + [Frame(|o.element|, [])], null, built)
  {
    var nodes', frames' := nodes + [o], frames + [Frame(|o.element|, [])];
    forall i | 0 <= i < |nodes'| ensures NodeOk(nodes', frames', null, built, i) {
      if i < |nodes| { assert NodeOk(nodes, frames, o, built, i); }
    }
  }

  /** With its last item, the innermost array is finished, and takes the slot its own
      parent kept for it. */
  ghost method CloseArray(nodes: seq<ReplyObject>, frames: seq<Frame>, item: ReplyObject, built: set<ReplyObject>,
                          outer: seq<ReplyObject>, outerFrames: seq<Frame>, o: ReplyObject, built': set<ReplyObject>)
    requires Tree(nodes, frames, item, built) && item in built
    requires nodes == outer + [o] && outerFrames == frames[..|outer|] && built' == built + {o}
    requires var f := frames[|outer|]; |f.done| + 1 == f.n
    modifies o
    ensures o.val == Array(frames[|outer|].done + [old(item.val)])
    ensures Tree(outer, outerFrames, o, built')
  {
    var k := |outer|;
    assert outer == nodes[..k];
    assert NodeOk(nodes, frames, item, built, k);
    assert forall n :: n in built ==> n.Built(built);
    o.val := Array(frames[k].done + [item.val]);
    forall i | 0 <= i < k ensures NodeOk(outer, outerFrames, o, built', i) {
      assert old(NodeOk(nodes, frames, item, built, i));
      assert nodes[i] != o;
    }
    forall n | n in built' ensures n.Built(built') {
      assert n != o ==> old(n.Built(built));
    }
  }

  /** The builders' store into the parent's slot. */
  method SetSlot(ghost nodes: seq<ReplyObject>, ghost frames: seq<Frame>, ghost built: set<ReplyObject>,
                 parent: ReplyObject, idx: int, o: ReplyObject)
    requires Tree(nodes, frames, null, built) && nodes != [] && o !in nodes
    requires parent == nodes[|nodes| - 1] && idx == |frames[|frames| - 1].done|
    modifies parent
    ensures Tree(nodes, frames, o, built)
  {
    assert NodeOk(nodes, frames, null, built, |nodes| - 1);
    parent.element := parent.element[idx := o];
    forall i | 0 <= i < |nodes| ensures NodeOk(nodes, frames, o, built, i) {
      assert old(NodeOk(nodes, frames, null, built, i));
    }
    forall n | n in built ensures n.Built(built) { assert old(n.Built(built)); }
  }

  // ---- the task stack ----

  /** redisReadTask; a parent pointer is the index of the slot it points at. */
  datatype ReadTask = ReadTask(
    kind: Option<ItemType>, elements: int, idx: int, obj: ReplyObject?, parent: Option<nat>)

  ghost predicate OpenTask(t: ReadTask, f: Frame, o: ReplyObject) {
    t.kind == Some(TArray) && t.elements == f.n && t.obj == o
  }

  ghost predicate ParentOk(t: ReadTask, i: nat) {
    t.parent == if i == 0 then None else Some(i - 1)
  }

  /** Tasks below `ridx` are the open arrays; each task's index counts its parent's
      finished items. */
  ghost predicate Tasks(stack: seq<ReadTask>, ridx: int, frames: seq<Frame>, nodes: seq<ReplyObject>) {
    && |stack| == 9
    && 0 <= ridx <= MAX_LEVEL
    && |frames| == ridx == |nodes|
    && (forall i :: 0 <= i <= ridx ==> ParentOk(stack[i], i))
    && (forall i :: 0 <= i < ridx ==> OpenTask(stack[i], frames[i], nodes[i]))
    && (forall i :: 0 < i <= ridx ==> stack[i].idx == |frames[i - 1].done|)
  }

  lemma TasksPush(stack: seq<ReadTask>, stack': seq<ReadTask>, ridx: int, frames: seq<Frame>, nodes: seq<ReplyObject>,
                  n: nat, o: ReplyObject)
    requires Tasks(stack, ridx - 1, frames, nodes) && ridx <= MAX_LEVEL && stack[ridx - 1].kind == Some(TArray)
    requires stack' == stack[ridx - 1 := stack[ridx - 1].(elements := n, obj := o)]
                            [ridx := ReadTask(None, -1, 0, null, Some(ridx - 1))]
    ensures Tasks(stack', ridx, frames + [Frame(n, [])], nodes + [o])
  {
    var frames', nodes' := frames + [Frame(n, [])], nodes + [o];
    forall i | 0 <= i <= ridx ensures ParentOk(stack'[i], i) { assert i < ridx ==> ParentOk(stack[i], i); }
    forall i | 0 <= i < ridx ensures OpenTask(stack'[i], frames'[i], nodes'[i]) {
      assert i < ridx - 1 ==> OpenTask(stack[i], frames[i], nodes[i]);
    }
    forall i | 0 < i <= ridx ensures stack'[i].idx == |frames'[i - 1].done| {
      assert i < ridx ==> stack[i].idx == |frames[i - 1].done|;
    }
  }

  lemma TasksTyped(stack: seq<ReadTask>, stack': seq<ReadTask>, ridx: int, frames: seq<Frame>, nodes: seq<ReplyObject>,
                   kind: Option<ItemType>)
    requires Tasks(stack, ridx, frames, nodes) && stack' == stack[ridx := stack[ridx].(kind := kind)]
    ensures Tasks(stack', ridx, frames, nodes)
  {
    forall i | 0 <= i <= ridx ensures ParentOk(stack'[i], i) { assert ParentOk(stack[i], i); }
    forall i | 0 <= i < ridx ensures OpenTask(stack'[i], frames[i], nodes[i]) {
      assert OpenTask(stack[i], frames[i], nodes[i]);
    }
    forall i | 0 < i <= ridx ensures stack'[i].idx == |frames[i - 1].done| {
      assert stack[i].idx == |frames[i - 1].done|;
    }
  }

  lemma TasksPop(stack: seq<ReadTask>, ridx: int, frames: seq<Frame>, nodes: seq<ReplyObject>)
    requires Tasks(stack, ridx, frames, nodes) && ridx > 0
    ensures Tasks(stack, ridx - 1, frames[..ridx - 1], nodes[..ridx - 1])
  {
  }

  lemma TasksNext(stack: seq<ReadTask>, stack': seq<ReadTask>, ridx: int, nodes: seq<ReplyObject>,
                  frames: seq<Frame>, frames': seq<Frame>)
    requires Tasks(stack, ridx, frames, nodes) && ridx > 0
    requires stack' == stack[ridx := stack[ridx].(kind := None, elements := -1, idx := stack[ridx].idx + 1)]
    requires |frames'| == |frames| && frames'[..ridx - 1] == frames[..ridx - 1]
    requires frames'[ridx - 1].n == frames[ridx - 1].n && |frames'[ridx - 1].done| == |frames[ridx - 1].done| + 1
    ensures Tasks(stack', ridx, frames', nodes)
  {
    forall i | 0 <= i <= ridx ensures ParentOk(stack'[i], i) { assert ParentOk(stack[i], i); }
    forall i | 0 <= i < ridx ensures OpenTask(stack'[i], frames'[i], nodes[i]) {
      assert OpenTask(stack[i], frames[i], nodes[i]);
      assert i < ridx - 1 ==> frames'[i] == frames'[..ridx - 1][i] == frames[i];
    }
    forall i | 0 < i <= ridx ensures stack'[i].idx == |frames'[i - 1].done| {
      assert stack[i].idx == |frames[i - 1].done|;
      assert i < ridx ==> frames'[i - 1] == frames'[..ridx - 1][i - 1] == frames[i - 1];
    }
  }
}
