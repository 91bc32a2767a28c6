/** The owning handle of a pooled connection (connection.cc): over any run of handle
    operations that give handles no pointer of the program's own, a connection is put back
    at most once for each time it was taken, and one kind of operation, the move onto a loaded
    handle, loses a connection for good. With such pointers the exact condition is named. */
module Handles {
  import opened IdleList
  import opened ConnectionPool

  // ---------- What the handles of a program hold ----------

  /** Different handles hold different connections, all of them out of the pool. What is
      out of the pool and in no handle is lost to the handles: at most a raw pointer still
      leads to it. */
  ghost predicate Owned(impls: seq<ListItem?>, held: set<ListItem>, lost: set<ListItem>) {
    && (forall i, j :: 0 <= i < j < |impls| && impls[i] != null ==> impls[i] != impls[j])
    && (forall i :: 0 <= i < |impls| && impls[i] != null ==> impls[i] in held && impls[i] !in lost)
    && lost <= held
    && (forall b :: b in held && b !in lost ==> b in impls)
  }

  lemma IsHeld(impls: seq<ListItem?>, at: nat, held: set<ListItem>, lost: set<ListItem>)
    requires at < |impls| && Owned(impls, held, lost)
    ensures impls[at] != null ==> impls[at] in held - lost
  {}

  lemma StaysIn(impls: seq<ListItem?>, at: nat, x: ListItem?, b: ListItem)
    requires at < |impls| && b in impls && b != impls[at]
    ensures b in impls[at := x]
  {
    var i :| 0 <= i < |impls| && impls[i] == b;
    assert impls[at := x][i] == b;
  }

  /** A handle lets go of its connection, which is put back. */
  lemma Released(impls: seq<ListItem?>, at: nat, held: set<ListItem>, lost: set<ListItem>)
    requires at < |impls| && impls[at] != null && Owned(impls, held, lost)
    ensures Owned(impls[at := null], held - {impls[at]}, lost)
  {
    forall b | b in held - {impls[at]} && b !in lost ensures b in impls[at := null] {
      StaysIn(impls, at, null, b);
    }
  }

  /** An empty handle takes a connection that the pool has just handed out. */
  lemma Acquired(impls: seq<ListItem?>, at: nat, b: ListItem, held: set<ListItem>, lost: set<ListItem>)
    requires at < |impls| && impls[at] == null && b !in held && Owned(impls, held, lost)
    ensures Owned(impls[at := b], held + {b}, lost)
  {
    var after := impls[at := b];
    assert after[at] == b;
    forall c | c in held + {b} && c !in lost ensures c in after {
      if c != b { StaysIn(impls, at, b, c); }
    }
  }

  function Only(b: ListItem?): set<ListItem> {
    if b == null then {} else {b}
  }

  /** A handle takes what the pool hands out, if anything, and what it held is put back. */
  lemma Replaced(impls: seq<ListItem?>, at: nat, b: ListItem?, held: set<ListItem>, lost: set<ListItem>)
    requires at < |impls| && (b != null ==> b !in held) && Owned(impls, held, lost)
    ensures Owned(impls[at := b], held + Only(b) - Only(impls[at]), lost)
  {
    var between, left := impls[at := null], held - Only(impls[at]);
    if impls[at] == null {
      assert between == impls && left == held;
    } else {
      Released(impls, at, held, lost);
    }
    if b == null {
      assert held + Only(b) - Only(impls[at]) == left;
    } else {
      Acquired(between, at, b, left, lost);
      IsHeld(impls, at, held, lost);
      assert held + Only(b) - Only(impls[at]) == left + {b};
      assert impls[at := b] == between[at := b];
    }
  }

  // ---------- Raw pointers ----------

  /** All handles can go out of scope, one after the other, and each puts back a connection
      that is out of the pool at that time. */
  ghost predicate DropsLegal(impls: seq<ListItem?>, held: set<ListItem>) {
    impls == [] || ((impls[0] == null || impls[0] in held) && DropsLegal(impls[1..], held - Only(impls[0])))
  }

  /** Different handles hold different connections, all of them out of the pool. */
  ghost predicate Disjoint(impls: seq<ListItem?>, held: set<ListItem>) {
    && (forall i, j :: 0 <= i < j < |impls| && impls[i] != null ==> impls[i] != impls[j])
    && (forall i :: 0 <= i < |impls| && impls[i] != null ==> impls[i] in held)
  }

  lemma {:induction false} DropsLegalIff(impls: seq<ListItem?>, held: set<ListItem>)
    ensures DropsLegal(impls, held) <==> Disjoint(impls, held)
  {
    if impls != [] {
      var rest, left := impls[1..], held - Only(impls[0]);
      DropsLegalIff(rest, left);
      if Disjoint(impls, held) {
        assert forall i :: 0 <= i < |rest| ==> rest[i] == impls[i + 1];
      }
      if Disjoint(rest, left) && (impls[0] == null || impls[0] in held) {
        assert forall i :: 1 <= i < |impls| ==> impls[i] == rest[i - 1];
      }
    }
  }

  /** A pointer that a handle may be given: null, or a connection that the caller has got
      from the pool and that sits in no handle. */
  ghost predicate Lawful(p: ListItem?, impls: seq<ListItem?>, held: set<ListItem>) {
    p == null || (p in held && p !in impls)
  }

  /** Assigning a pointer to a handle puts the old connection back. Every later Put of the
      handles is legal if and only if the pointer was lawful. */
  lemma PointIff(impls: seq<ListItem?>, at: nat, p: ListItem?, held: set<ListItem>, lost: set<ListItem>)
    requires at < |impls| && Owned(impls, held, lost)
    ensures var after, left := impls[at := p], held - Only(impls[at]);
      && (DropsLegal(after, left) <==> Lawful(p, impls, held))
      && (Lawful(p, impls, held) ==> Owned(after, left, lost - Only(p)) && |lost - Only(p)| == |lost| - |Only(p)|)
  {
    var after, left := impls[at := p], held - Only(impls[at]);
    DropsLegalIff(after, left);
    assert after[at] == p;
    if Lawful(p, impls, held) {
      assert p != null ==> p in lost;
      assert forall i :: 0 <= i < |impls| ==> impls[i] in impls;
      forall b | b in left && b !in lost - Only(p) ensures b in after {
        if b != p { StaysIn(impls, at, p, b); }
      }
    } else if p in impls && p != impls[at] {
      var i :| 0 <= i < |impls| && impls[i] == p;
      assert after[i] == after[at] == p;
    }
  }

  /** set_impl overwrites the pointer, and nothing is put back. Every later Put of the handles
      is legal if and only if the pointer is null, or held and in no other handle; what the
      handle had is in none then, unless it is the same one. */
  lemma OverwriteIff(impls: seq<ListItem?>, at: nat, p: ListItem?, held: set<ListItem>, lost: set<ListItem>)
    requires at < |impls| && Owned(impls, held, lost)
    ensures var after, gone := impls[at := p], lost + Only(impls[at]);
      && (DropsLegal(after, held) <==> Lawful(p, impls[at := null], held))
      && (Lawful(p, impls[at := null], held) ==>
            && Owned(after, held, gone - Only(p))
            && |gone - Only(p)| == |lost| + |Only(impls[at])| - |Only(p)|)
  {
    hide DropsLegal, Lawful, Owned, Only;
    var between := impls[at := null];
    Moved(impls, at, at, held, lost);
    assert impls[at := impls[at]][at := null] == between;
    PointIff(between, at, p, held, lost + Only(impls[at]));
    assert between[at := p] == impls[at := p];
    IsHeld(impls, at, held, lost);
    OneMore(lost, impls[at]);
    OneMore(held, null);
  }

  lemma OneMore(lost: set<ListItem>, b: ListItem?)
    ensures b == null || b !in lost ==> |lost + Only(b)| == |lost| + |Only(b)|
    ensures b == null ==> lost - Only(b) == lost
  {}

  /** The pointer that a handle already has, assigned to it, is put back and kept: the next
      Put of the handle is of a connection that is not out of the pool. */
  lemma SelfAssignment(impls: seq<ListItem?>, at: nat, held: set<ListItem>, lost: set<ListItem>)
    requires at < |impls| && impls[at] != null && Owned(impls, held, lost)
    ensures var after, left := impls[at := impls[at]], held - Only(impls[at]);
      after[at] == impls[at] && after[at] !in left && !DropsLegal(after, left)
  {
    PointIff(impls, at, impls[at], held, lost);
  }

  /** A move empties its source. What its target held before is lost. */
  lemma Moved(impls: seq<ListItem?>, to: nat, from: nat, held: set<ListItem>, lost: set<ListItem>)
    requires to < |impls| && from < |impls| && Owned(impls, held, lost)
    ensures Owned(impls[to := impls[from]][from := null], held, lost + Only(impls[to]))
  {
    var after := impls[to := impls[from]][from := null];
    forall b | b in held && b !in lost && b != impls[to] ensures b in after {
      var i :| 0 <= i < |impls| && impls[i] == b;
      if to != from { assert after[if i == from then to else i] == b; } else { assert after[i] == b; }
    }
  }

  /** A new empty handle appears, or an empty one goes away. */
  lemma Empties(impls: seq<ListItem?>, at: nat, held: set<ListItem>, lost: set<ListItem>)
    requires Owned(impls, held, lost)
    ensures Owned(impls + [null], held, lost)
    ensures at < |impls| && impls[at] == null ==> Owned(impls[..at] + impls[at + 1..], held, lost)
  {
    forall b | b in held && b !in lost ensures b in impls + [null] {
      var i :| 0 <= i < |impls| && impls[i] == b;
      assert (impls + [null])[i] == b;
    }
    if at < |impls| && impls[at] == null {
      var after := impls[..at] + impls[at + 1..];
      forall b | b in held && b !in lost ensures b in after {
        var i :| 0 <= i < |impls| && impls[i] == b;
        assert after[if i < at then i else i - 1] == b;
      }
    }
  }

  /** A handle goes away, and what it held is put back. */
  lemma Dropped(impls: seq<ListItem?>, at: nat, held: set<ListItem>, lost: set<ListItem>)
    requires at < |impls| && Owned(impls, held, lost)
    ensures Owned(impls[..at] + impls[at + 1..], held - Only(impls[at]), lost)
  {
    var between := impls[at := null];
    Replaced(impls, at, null, held, lost);
    assert held + Only(null) - Only(impls[at]) == held - Only(impls[at]);
    Empties(between, at, held - Only(impls[at]), lost);
    assert between[..at] + between[at + 1..] == impls[..at] + impls[at + 1..];
  }

  // ---------- The handle ----------

  const STATE_OK: nat := 0

  // What the last request left in a connection: a reply or none, and an error state.
  datatype ReplyState = ReplyState(hasReply: bool, isError: bool, errState: nat)

  /** A connection may be used again when its last reply was no error, or when it has had
      none and nothing went wrong. */
  predicate Reusable(state: ReplyState) {
    if state.hasReply then !state.isError else state.errState == STATE_OK
  }

  /** Where a connection is after that. */
  twostate predicate PutBack(pool: Pool, conn: ListItem, state: ReplyState)
    reads pool`memPool, pool.idle
  {
    if Reusable(state) then pool.idle.front == conn
    else pool.idle.items == old(pool.idle.items) && pool.memPool == [conn] + old(pool.memPool)
  }

  /** RedisConnectionImpl::Done: a reusable connection becomes the first idle one, any
      other ends. */
  method Done(pool: Pool, conn: ListItem, state: ReplyState)
    requires pool.Valid() && conn in pool.held
    modifies pool`memPool, pool`activeCnt, pool`held, pool.idle, pool.clock, pool.blocks
    ensures pool.Valid() && pool.held == old(pool.held) - {conn} && PutBack(pool, conn, state)
    ensures (state.hasReply && !state.isError) || (!state.hasReply && state.errState == 0) ==> pool.idle.front == conn
    ensures (state.hasReply && state.isError) || (!state.hasReply && state.errState != 0) ==>
      pool.idle.items == old(pool.idle.items) && pool.memPool == [conn] + old(pool.memPool)
  {
    hide Pool.Valid;
    var ok := state.hasReply && !state.isError;
    var raw := !state.hasReply && state.errState == STATE_OK;
    pool.Put(conn, ok || raw);
  }

  /** The limit on active connections is reached. */
  ghost predicate Full(pool: Pool)
    reads pool`activeCnt
  {
    pool.options.maxActive > 0 && pool.activeCnt >= pool.options.maxActive
  }

  /** Get cannot fail: there is memory, or a block that is idle or spare. */
  ghost predicate Gives(pool: Pool, mallocOk: bool, initOk: bool)
    reads pool`activeCnt, pool`memPool, pool.idle`items
  {
    !Full(pool) && initOk && (mallocOk || pool.memPool != [] || pool.idle.items != [])
  }

  class RedisConnection {
    var impl: ListItem?

    /** The constructor from a pointer. With a pointer other than null it does what an
        assignment to an empty handle does. */
    constructor (conn: ListItem?)
      ensures impl == conn
    {
      impl := conn;
    }

    /** The move constructor. */
    constructor MoveFrom(conn: RedisConnection)
      modifies conn
      ensures impl == old(conn.impl) && conn.impl == null
    {
      impl := conn.impl;
      new;
      conn.impl := null;
    }

    /** Assignment of a pointer: what the handle held before is put back, also when it is
        the same connection. */
    method Assign(pool: Pool, connection: ListItem?, state: ReplyState)
      requires pool.Valid() && (impl != null ==> impl in pool.held)
      modifies `impl, pool`memPool, pool`activeCnt, pool`held, pool.idle, pool.clock, pool.blocks
      ensures pool.Valid() && impl == connection
      ensures pool.held == old(pool.held) - Only(old(impl))
      ensures if old(impl) == null then pool.idle.items == old(pool.idle.items) else PutBack(pool, old(impl), state)
    {
      if impl != null {
        Done(pool, impl, state);
      }
      impl := connection;
    }

    /** set_impl. */
    method SetImpl(impl: ListItem?)
      modifies `impl
      ensures this.impl == impl
    {
      this.impl := impl;
    }

    /** Move assignment overwrites the target, whatever it held. */
    method MoveAssign(conn: RedisConnection)
      modifies this, conn
      ensures conn.impl == null && (conn != this ==> impl == old(conn.impl))
    {
      impl := conn.impl;
      conn.impl := null;
    }

    /** The destructor. */
    method Destroy(pool: Pool, state: ReplyState)
      requires pool.Valid() && (impl != null ==> impl in pool.held)
      modifies pool`memPool, pool`activeCnt, pool`held, pool.idle, pool.clock, pool.blocks
      ensures pool.Valid()
      ensures pool.held == old(pool.held) - Only(impl)
      ensures if impl == null then pool.idle.items == old(pool.idle.items) else PutBack(pool, impl, state)
    {
      if impl != null {
        Done(pool, impl, state);
      }
    }
  }

  // ---------- Programs over handles ----------

  ghost predicate Separate(handles: seq<RedisConnection>) {
    forall i, j :: 0 <= i < j < |handles| ==> handles[i] != handles[j]
  }

  ghost function Impls(handles: seq<RedisConnection>): (r: seq<ListItem?>)
    reads handles
    ensures |r| == |handles| && forall i :: 0 <= i < |r| ==> r[i] == handles[i].impl
  {
    seq(|handles|, i requires 0 <= i < |handles| reads handles => handles[i].impl)
  }

  // `Keep` gets a connection and leaves it with a raw pointer; `Point` assigns the k-th
  // pointer that was ever got, or null, and `Overwrite` sets it.
  datatype Step =
    | Create
    | Keep(mallocOk: bool, initOk: bool)
    | Point(at: nat, k: nat, state: ReplyState)
    | Overwrite(at: nat, k: nat)
    | Obtain(at: nat, mallocOk: bool, initOk: bool, state: ReplyState)
    | MoveOut(from: nat)
    | MoveOnto(to: nat, from: nat)
    | Leave(at: nat, state: ReplyState)

  /** Operations that give a handle a pointer of the program's own. */
  predicate Raw(step: Step) { step.Point? || step.Overwrite? }

  /** Operations that can leave a connection in no handle. */
  predicate Loses(step: Step) { step.MoveOnto? || step.Keep? || step.Overwrite? }

  /** Who holds what: the handles, the pointers ever got, the connections out of the pool and
      those of them in no handle. */
  datatype World = World(impls: seq<ListItem?>, raws: seq<ListItem?>, held: set<ListItem>, lost: set<ListItem>) {
    function Pointer(k: nat): ListItem? { if k < |raws| then raws[k] else null }
  }

  /** An operation on all that, given what it gets from the pool if it asks there. */
  function Next(w: World, step: Step, got: ListItem?): World {
    match step
    case Create => w.(impls := w.impls + [null])
    case Keep(_, _) => w.(raws := w.raws + [got], held := w.held + Only(got), lost := w.lost + Only(got))
    case Point(at, k, _) =>
      if at >= |w.impls| then w
      else w.(impls := w.impls[at := w.Pointer(k)], held := w.held - Only(w.impls[at]), lost := w.lost - Only(w.Pointer(k)))
    case Overwrite(at, k) =>
      if at >= |w.impls| then w
      else w.(impls := w.impls[at := w.Pointer(k)], lost := w.lost + Only(w.impls[at]) - Only(w.Pointer(k)))
    case Obtain(at, _, _, _) =>
      if at >= |w.impls| then w
      else w.(impls := w.impls[at := got], raws := w.raws + [got], held := w.held + Only(got) - Only(w.impls[at]))
    case MoveOut(from) =>
      if from >= |w.impls| then w else w.(impls := w.impls[from := null] + [w.impls[from]])
    case MoveOnto(to, from) =>
      if to >= |w.impls| || from >= |w.impls| then w
      else w.(impls := w.impls[to := w.impls[from]][from := null], lost := w.lost + Only(w.impls[to]))
    case Leave(at, _) =>
      if at >= |w.impls| then w else w.(impls := w.impls[..at] + w.impls[at + 1..], held := w.held - Only(w.impls[at]))
  }

  function After(w: World, steps: seq<Step>, got: seq<ListItem?>): World
    requires |steps| == |got|
  {
    if steps == [] then w
    else
      var n := |steps| - 1;
      Next(After(w, steps[..n], got[..n]), steps[n], got[n])
  }

  /** The pointer that an operation gives to a handle, if it does, is a lawful one. */
  ghost predicate Permits(w: World, step: Step) {
    match step
    case Point(at, k, _) => at < |w.impls| ==> Lawful(w.Pointer(k), w.impls, w.held)
    case Overwrite(at, k) => at < |w.impls| ==> Lawful(w.Pointer(k), w.impls[at := null], w.held)
    case _ => true
  }

  ghost predicate AllPermitted(w: World, steps: seq<Step>, got: seq<ListItem?>)
    requires |steps| == |got|
  {
    forall i :: 0 <= i < |steps| ==> Permits(After(w, steps[..i], got[..i]), steps[i])
  }

  lemma AfterNext(w: World, steps: seq<Step>, i: nat, got: seq<ListItem?>, g: ListItem?)
    requires i < |steps| && |got| == i && AllPermitted(w, steps[..i], got) && Permits(After(w, steps[..i], got), steps[i])
    ensures After(w, steps[..i + 1], got + [g]) == Next(After(w, steps[..i], got), steps[i], g)
    ensures AllPermitted(w, steps[..i + 1], got + [g])
  {
    hide Permits, Next;
    var more, all := steps[..i + 1], got + [g];
    assert more[..i] == steps[..i] && all[..i] == got;
    forall j | 0 <= j < |more| ensures Permits(After(w, more[..j], all[..j]), more[j]) {
      if j < i {
        assert more[..j] == steps[..i][..j] && all[..j] == got[..j];
        assert Permits(After(w, steps[..i][..j], got[..j]), steps[..i][j]);
      }
    }
  }

  /** Where every connection is after an operation, place by place. */
  lemma NextPlaces(w: World, step: Step, got: ListItem?)
    ensures var n := Next(w, step, got);
      && (step.Create? ==> |n.impls| == |w.impls| + 1 && n.impls[|w.impls|] == null && n.impls[..|w.impls|] == w.impls)
      && (step.MoveOut? && step.from < |w.impls| ==>
            && |n.impls| == |w.impls| + 1 && n.impls[|w.impls|] == w.impls[step.from] && n.impls[step.from] == null
            && forall j :: 0 <= j < |w.impls| && j != step.from ==> n.impls[j] == w.impls[j])
      && (step.MoveOnto? && step.to < |w.impls| && step.from < |w.impls| ==>
            && |n.impls| == |w.impls| && n.impls[step.from] == null
            && (step.to != step.from ==> n.impls[step.to] == w.impls[step.from])
            && (w.impls[step.to] != null ==> w.impls[step.to] in n.lost)
            && forall j :: 0 <= j < |w.impls| && j != step.to && j != step.from ==> n.impls[j] == w.impls[j])
      && (step.Leave? && step.at < |w.impls| ==>
            && |n.impls| == |w.impls| - 1 && (w.impls[step.at] != null ==> w.impls[step.at] !in n.held)
            && forall j :: 0 <= j < |n.impls| ==> n.impls[j] == w.impls[if j < step.at then j else j + 1])
      && (step.Obtain? && step.at < |w.impls| && got !in w.impls ==>
            && |n.impls| == |w.impls| && n.impls[step.at] == got && (got != null ==> got in n.held)
            && (w.impls[step.at] != null ==> w.impls[step.at] !in n.held)
            && forall j :: 0 <= j < |w.impls| && j != step.at ==> n.impls[j] == w.impls[j])
      && (step.Keep? && got != null ==> n.impls == w.impls && got in n.held && got in n.lost)
  {}

  /** A program with a pool and any number of live handles. */
  class Program {
    const pool: Pool
    var handles: seq<RedisConnection>
    // Every pointer that Get has returned, and the connections got and not put back.
    var raws: seq<ListItem?>
    var out: set<ListItem>
    // The connections in no handle; how many overwritings and how many raw Gets have
    // left one there, and how many pointers given to a handle have taken one from there.
    ghost var lost: set<ListItem>
    ghost var overwrites: nat
    ghost var kept: nat
    ghost var rescued: nat

    ghost predicate Valid()
      reads this, handles, pool, pool.idle, pool.idle.items, pool.clock, pool.blocks
    {
      && pool.Valid()
      && Separate(handles)
      && Owned(Impls(handles), pool.held, lost)
      && out == pool.held && overwrites + kept == |lost| + rescued
    }

    ghost function Now(): World
      reads this, handles, pool
    {
      World(Impls(handles), raws, pool.held, lost)
    }

    constructor (pool: Pool)
      requires pool.Valid() && pool.held == {}
      ensures Valid() && this.pool == pool && handles == [] && lost == {}
    {
      this.pool, handles, raws, out := pool, [], [], {};
      lost, overwrites, kept, rescued := {}, 0, 0, 0;
    }

    method NewHandle()
      requires Valid()
      modifies `handles
      ensures Valid() && Grown() && |handles| == |old(handles)| + 1 && fresh(handles[|old(handles)|])
      ensures handles[..|old(handles)|] == old(handles)
      ensures Impls(handles) == old(Impls(handles)) + [null]
    {
      hide Pool.Valid, Owned, Impls;
      Empties(Impls(handles), 0, pool.held, lost);
      var h := new RedisConnection(null);
      handles := handles + [h];
      assert Impls(handles) == old(Impls(handles)) + [null];
    }

    method Take(mallocOk: bool, initOk: bool) returns (conn: ListItem?)
      requires pool.Valid()
      modifies pool, pool.idle, pool.clock, pool.blocks
      ensures pool.Valid() && pool.held == old(pool.held) + Only(conn) && (conn != null ==> conn !in old(pool.held))
      ensures old(pool.blocks) <= pool.blocks && fresh(pool.blocks - old(pool.blocks))
      ensures old(Full(pool)) ==> conn == null
      ensures old(Gives(pool, mallocOk, initOk)) ==> conn != null
    {
      hide Pool.Valid;
      var got, _, _, _ := pool.Get(mallocOk, initOk);
      conn := got;
    }

    /** Every handle was there before or is new. */
    twostate predicate Grown()
      reads `handles
    {
      forall i :: 0 <= i < |handles| ==> handles[i] in old(handles) || fresh(handles[i])
    }

    method AssignAt(at: nat, p: ListItem?, state: ReplyState)
      requires pool.Valid() && Separate(handles) && at < |handles|
      requires handles[at].impl != null ==> handles[at].impl in pool.held
      modifies handles[at], pool`memPool, pool`activeCnt, pool`held, pool.idle, pool.clock, pool.blocks
      ensures pool.Valid() && pool.held == old(pool.held) - Only(old(handles[at].impl))
      ensures if old(handles[at].impl) == null then pool.idle.items == old(pool.idle.items)
        else PutBack(pool, old(handles[at].impl), state)
      ensures handles[at].impl == p && Impls(handles) == old(Impls(handles))[at := p]
    {
      hide Pool.Valid, Impls;
      handles[at].Assign(pool, p, state);
    }

    /** The handles' pointers, without the one at `skip`. */
    ghost function Others(skip: nat): seq<ListItem?>
      reads `handles, handles
    {
      if skip < |handles| then Impls(handles)[skip := null] else Impls(handles)
    }

    /** Whether a pointer may be given to a handle that lets go of its own connection, or to
        the one at `skip`, which does not. */
    method Allowed(p: ListItem?, skip: nat) returns (r: bool)
      ensures r == Lawful(p, Others(skip), out)
    {
      hide Impls;
      if p == null { return true; }
      ghost var others := Others(skip);
      if p !in out { return false; }
      r := forall i :: 0 <= i < |handles| && i != skip ==> handles[i].impl != p;
      if !r {
        var i :| 0 <= i < |handles| && i != skip && handles[i].impl == p;
        assert others[i] == p;
      }
    }

    /** A connection from the pool is assigned to a handle. The pool is asked before the
        handle puts its old connection back. */
    method Fetch(at: nat, mallocOk: bool, initOk: bool, state: ReplyState)
      requires Valid() && at < |handles|
      modifies `raws, `out, handles[at], pool, pool.idle, pool.clock, pool.blocks
      ensures Valid() && old(pool.blocks) <= pool.blocks && fresh(pool.blocks - old(pool.blocks))
      ensures handles[at].impl != null ==> handles[at].impl !in old(pool.held)
      ensures pool.held == old(pool.held) + Only(handles[at].impl) - Only(old(handles[at].impl))
      ensures old(handles[at].impl) != null && Reusable(state) ==> pool.idle.front == old(handles[at].impl)
      ensures old(handles[at].impl) != null && !Reusable(state) ==> [old(handles[at].impl)] <= pool.memPool
      ensures raws == old(raws) + [handles[at].impl] && Impls(handles) == old(Impls(handles))[at := handles[at].impl]
      ensures old(Full(pool)) ==> handles[at].impl == null
      ensures old(Gives(pool, mallocOk, initOk)) ==> handles[at].impl != null
    {
      hide Pool.Valid, Owned, Impls, Only, Separate;
      ghost var was := Impls(handles);
      IsHeld(was, at, pool.held, lost);
      var conn := Take(mallocOk, initOk);
      raws := raws + [conn];
      out := out + Only(conn) - Only(handles[at].impl);
      AssignAt(at, conn, state);
      Replaced(was, at, conn, old(pool.held), lost);
    }

    /** A new handle is made from another one. */
    method MoveToNew(from: nat)
      requires Valid() && from < |handles|
      modifies `handles, handles[from]
      ensures Valid() && Grown() && |handles| == |old(handles)| + 1
      ensures fresh(handles[|old(handles)|]) && handles[..|old(handles)|] == old(handles)
      ensures handles[|old(handles)|].impl == old(handles[from].impl) && handles[from].impl == null
      ensures Impls(handles) == old(Impls(handles))[from := null] + [old(Impls(handles))[from]]
    {
      hide Pool.Valid, Owned, Impls;
      ghost var was := Impls(handles);
      ghost var n := |handles|;
      Empties(was, 0, pool.held, lost);
      Moved(was + [null], n, from, pool.held, lost);
      var h := new RedisConnection.MoveFrom(handles[from]);
      handles := handles + [h];
      assert Impls(handles) == (was + [null])[n := was[from]][from := null];
    }

    /** One handle is moved onto another, or onto itself. */
    method Move(to: nat, from: nat)
      requires Valid() && to < |handles| && from < |handles|
      modifies `lost, `overwrites, handles[to], handles[from]
      ensures Valid() && handles[from].impl == null && (to != from ==> handles[to].impl == old(handles[from].impl))
      ensures lost == old(lost) + Only(old(handles[to].impl))
      ensures overwrites == old(overwrites) + if old(handles[to].impl) == null then 0 else 1
      ensures Impls(handles) == old(Impls(handles))[to := old(Impls(handles))[from]][from := null]
    {
      hide Pool.Valid, Owned, Impls;
      ghost var was := Impls(handles);
      Moved(was, to, from, pool.held, lost);
      IsHeld(was, to, pool.held, lost);
      handles[to].MoveAssign(handles[from]);
      if was[to] != null {
        assert |lost + {was[to]}| == |lost| + 1;
        lost, overwrites := lost + {was[to]}, overwrites + 1;
      }
      assert Impls(handles) == was[to := was[from]][from := null];
    }

    method Remove(at: nat, state: ReplyState)
      requires pool.Valid() && Separate(handles) && at < |handles|
      requires handles[at].impl != null ==> handles[at].impl in pool.held
      modifies `handles, pool`memPool, pool`activeCnt, pool`held, pool.idle, pool.clock, pool.blocks
      ensures pool.Valid() && pool.held == old(pool.held) - Only(old(handles[at].impl))
      ensures if old(handles[at].impl) == null then pool.idle.items == old(pool.idle.items)
        else PutBack(pool, old(handles[at].impl), state)
      ensures Separate(handles) && Grown() && handles == old(handles)[..at] + old(handles)[at + 1..]
      ensures Impls(handles) == old(Impls(handles))[..at] + old(Impls(handles))[at + 1..]
    {
      hide Pool.Valid, Impls;
      ghost var was := Impls(handles);
      handles[at].Destroy(pool, state);
      handles := handles[..at] + handles[at + 1..];
      assert Impls(handles) == was[..at] + was[at + 1..];
    }

    /** A handle goes out of scope. */
    method Drop(at: nat, state: ReplyState)
      requires Valid() && at < |handles|
      modifies `handles, `out, handles[at], pool, pool.idle, pool.clock, pool.blocks
      ensures Valid() && Grown() && handles == old(handles)[..at] + old(handles)[at + 1..] && pool.blocks == old(pool.blocks)
      ensures pool.held == old(pool.held) - Only(old(handles[at].impl))
      ensures if old(handles[at].impl) == null then pool.idle.items == old(pool.idle.items)
        else PutBack(pool, old(handles[at].impl), state)
      ensures Impls(handles) == old(Impls(handles))[..at] + old(Impls(handles))[at + 1..]
    {
      hide Pool.Valid, Owned, Impls, Only, Separate;
      ghost var was := Impls(handles);
      IsHeld(was, at, pool.held, lost);
      Dropped(was, at, pool.held, lost);
      out := out - Only(handles[at].impl);
      Remove(at, state);
    }

    /** A connection is got and stays with a raw pointer. */
    method KeepRaw(mallocOk: bool, initOk: bool)
      requires Valid()
      modifies `raws, `out, `lost, `kept, pool, pool.idle, pool.clock, pool.blocks
      ensures Valid() && old(pool.blocks) <= pool.blocks && fresh(pool.blocks - old(pool.blocks))
      ensures |raws| == |old(raws)| + 1 && raws[..|old(raws)|] == old(raws)
      ensures lost == old(lost) + Only(raws[|old(raws)|]) && pool.held == old(pool.held) + Only(raws[|old(raws)|])
      ensures old(Full(pool)) ==> raws[|old(raws)|] == null
      ensures old(Gives(pool, mallocOk, initOk)) ==> raws[|old(raws)|] != null
    {
      hide Pool.Valid, Owned, Impls, Only, Separate;
      var conn := Take(mallocOk, initOk);
      Kept(Impls(handles), conn, old(pool.held), lost);
      raws := raws + [conn];
      out, lost, kept := out + Only(conn), lost + Only(conn), kept + |Only(conn)|;
    }

    /** Any pointer is assigned to a handle. It tells whether that was lawful; if not, a
        later Put of some handle is of a connection that is not out of the pool. */
    method PointTo(at: nat, p: ListItem?, state: ReplyState) returns (lawful: bool)
      requires Valid() && at < |handles|
      modifies `out, `lost, `rescued, handles[at], pool, pool.idle, pool.clock, pool.blocks
      ensures lawful == Lawful(p, old(Impls(handles)), old(pool.held)) && pool.blocks == old(pool.blocks)
      ensures pool.Valid() && pool.held == old(pool.held) - Only(old(handles[at].impl)) && handles[at].impl == p
      ensures if old(handles[at].impl) == null then pool.idle.items == old(pool.idle.items)
        else PutBack(pool, old(handles[at].impl), state)
      ensures if lawful then Valid() && lost == old(lost) - Only(p) else !DropsLegal(Impls(handles), pool.held)
      ensures Impls(handles) == old(Impls(handles))[at := p]
    {
      hide Pool.Valid, Owned, Impls, Only, Separate, DropsLegal;
      ghost var was := Impls(handles);
      IsHeld(was, at, pool.held, lost);
      PointIff(was, at, p, pool.held, lost);
      lawful := Allowed(p, |handles|);
      out := out - Only(handles[at].impl);
      AssignAt(at, p, state);
      if lawful { lost, rescued := lost - Only(p), rescued + |Only(p)|; }
    }

    method OverwriteAt(at: nat, p: ListItem?)
      requires Separate(handles) && at < |handles|
      modifies handles[at]
      ensures handles[at].impl == p && Impls(handles) == old(Impls(handles))[at := p]
    {
      hide Impls;
      handles[at].SetImpl(p);
    }

    /** The pointer of a handle is overwritten. It tells whether that was lawful. */
    method Overwrite(at: nat, p: ListItem?) returns (lawful: bool)
      requires Valid() && at < |handles|
      modifies `lost, `overwrites, `rescued, handles[at]
      ensures lawful == Lawful(p, old(Impls(handles))[at := null], pool.held) && pool.Valid() && handles[at].impl == p
      ensures if lawful then Valid() && lost == old(lost) + Only(old(handles[at].impl)) - Only(p)
        else !DropsLegal(Impls(handles), pool.held)
      ensures Impls(handles) == old(Impls(handles))[at := p]
    {
      hide Pool.Valid, Owned, Impls, Only, Separate, DropsLegal, Lawful;
      OverwriteIff(Impls(handles), at, p, pool.held, lost);
      lawful := Allowed(p, at);
      if lawful {
        ghost var before := Only(handles[at].impl);
        lost, overwrites, rescued := lost + before - Only(p), overwrites + |before|, rescued + |Only(p)|;
      }
      OverwriteAt(at, p);
    }

    /** One operation; one that names no live handle does nothing. */
    method Perform(step: Step) returns (lawful: bool, ghost got: ListItem?)
      requires Valid()
      modifies this, handles, pool, pool.idle, pool.clock, pool.blocks
      ensures pool.Valid() && (lawful ==> Valid()) && lawful == Permits(old(Now()), step) && (!Raw(step) ==> lawful)
      ensures if lawful then Now() == Next(old(Now()), step, got) else !DropsLegal(Impls(handles), pool.held)
      ensures !Loses(step) && lawful ==> lost <= old(lost)
      ensures old(pool.blocks) <= pool.blocks && fresh(pool.blocks - old(pool.blocks))
      ensures Grown()
      ensures step.Keep? || (step.Obtain? && step.at < |old(handles)|) ==>
        && (old(Full(pool)) ==> got == null)
        && (old(Gives(pool, step.mallocOk, step.initOk)) ==> got != null)
    {
      hide Valid, Pool.Valid, DropsLegal, Lawful, PutBack, Only, Impls;
      PoolIsValid();
      lawful, got := true, null;
      if step.Point? || step.Overwrite? {
        if step.at < |handles| { lawful := Give(step); }
      } else {
        got := Operate(step);
        PoolIsValid();
      }
    }

    /** A pointer that was got before, or null, is given to a handle. */
    method Give(step: Step) returns (lawful: bool)
      requires Valid() && Raw(step) && step.at < |handles|
      modifies `out, `lost, `overwrites, `rescued, handles[step.at], pool, pool.idle, pool.clock, pool.blocks
      ensures pool.Valid() && (lawful ==> Valid()) && lawful == Permits(old(Now()), step)
      ensures if lawful then Now() == Next(old(Now()), step, null) else !DropsLegal(Impls(handles), pool.held)
      ensures !Loses(step) && lawful ==> lost <= old(lost)
      ensures pool.blocks == old(pool.blocks)
    {
      hide Valid, Pool.Valid, DropsLegal, Lawful, PutBack, Only, Impls;
      var p := if step.k < |raws| then raws[step.k] else null;
      if step.Point? {
        lawful := PointTo(step.at, p, step.state);
      } else {
        lawful := Overwrite(step.at, p);
      }
    }

    method Operate(step: Step) returns (ghost got: ListItem?)
      requires Valid() && !Raw(step)
      modifies this, handles, pool, pool.idle, pool.clock, pool.blocks
      ensures Valid() && Grown() && (!Loses(step) ==> lost == old(lost))
      ensures Now() == Next(old(Now()), step, got)
      ensures old(pool.blocks) <= pool.blocks && fresh(pool.blocks - old(pool.blocks))
      ensures step.Keep? || (step.Obtain? && step.at < |old(handles)|) ==>
        && (old(Full(pool)) ==> got == null)
        && (old(Gives(pool, step.mallocOk, step.initOk)) ==> got != null)
    {
      hide Valid, PutBack, Only, Impls;
      got := null;
      match step
      case Create => NewHandle();
      case Keep(mallocOk, initOk) =>
        KeepRaw(mallocOk, initOk);
        got := raws[|raws| - 1];
        assert raws == old(raws) + [got];
      case Obtain(at, mallocOk, initOk, state) =>
        if at < |handles| {
          Fetch(at, mallocOk, initOk, state);
          got := handles[at].impl;
        }
      case MoveOut(from) => if from < |handles| { MoveToNew(from); }
      case MoveOnto(to, from) => if to < |handles| && from < |handles| { Move(to, from); }
      case Leave(at, state) => if at < |handles| { Drop(at, state); }
    }

    /** Any run of handle operations, up to the first pointer that a handle is given unlawfully:
        who holds what is what the operations come to, with the connections that the pool
        has handed out. As long as all pointers are lawful, only held connections are put
        back. After one that is not, the handles cannot all go out of scope without a Put of
        a connection that is not held. */
    method Run(steps: seq<Step>) returns (lawful: bool, ghost got: seq<ListItem?>)
      requires Valid()
      modifies this, handles, pool, pool.idle, pool.clock, pool.blocks
      ensures pool.Valid() && if lawful then Valid() else !DropsLegal(Impls(handles), pool.held)
      ensures |got| <= |steps| && AllPermitted(old(Now()), steps[..|got|], got)
      ensures if lawful then |got| == |steps| && Now() == After(old(Now()), steps, got)
        else |got| < |steps| && !Permits(After(old(Now()), steps[..|got|], got), steps[|got|])
      ensures (forall i :: 0 <= i < |steps| ==> !Raw(steps[i])) ==> lawful
      ensures lawful && (forall i :: 0 <= i < |steps| ==> !Loses(steps[i])) ==> lost <= old(lost)
    {
      hide Valid, DropsLegal, Impls, Next, Permits;
      lawful, got := true, [];
      for i := 0 to |steps|
        invariant lawful && Valid() && |got| == i
        invariant AllPermitted(old(Now()), steps[..i], got) && Now() == After(old(Now()), steps[..i], got)
        invariant (forall k :: 0 <= k < i ==> !Loses(steps[k])) ==> lost <= old(lost)
        invariant old(pool.blocks) <= pool.blocks && fresh(pool.blocks - old(pool.blocks))
        invariant Grown()
      {
        ghost var g: ListItem?;
        lawful, g := Perform(steps[i]);
        if !lawful { return; }
        AfterNext(old(Now()), steps, i, got, g);
        got := got + [g];
      }
      assert steps[..|steps|] == steps;
      PoolIsValid();
    }

    lemma PoolIsValid()
      requires Valid()
      ensures pool.Valid()
    {}

    /** The end of the program: every handle goes out of scope. The connections that are
        still counted as active and are not idle are those in no handle: one for each
        overwriting of a loaded handle and each raw Get, less those that a handle took up
        again. */
    method Finish(state: ReplyState)
      requires Valid()
      modifies `handles, `out, handles, pool, pool.idle, pool.clock, pool.blocks
      ensures Valid() && handles == [] && pool.held == lost
      ensures pool.activeCnt == |pool.idle.items| + overwrites + kept - rescued
    {
      hide Pool.Valid, Impls;
      while handles != []
        invariant Valid() && pool.blocks == old(pool.blocks)
        invariant forall k :: 0 <= k < |handles| ==> handles[k] in old(handles)
        decreases |handles|
      {
        Drop(0, state);
      }
      ActiveAre(pool);
      assert pool.held == lost;
    }
  }

  /** A connection got without a handle. */
  lemma Kept(impls: seq<ListItem?>, b: ListItem?, held: set<ListItem>, lost: set<ListItem>)
    requires Owned(impls, held, lost) && (b != null ==> b !in held)
    ensures Owned(impls, held + Only(b), lost + Only(b)) && |lost + Only(b)| == |lost| + |Only(b)|
  {}

  lemma ActiveAre(pool: Pool)
    requires pool.Valid()
    ensures pool.activeCnt == |pool.idle.items| + |pool.held|
  {}
}
