/** What a call of Get or Put does when its thread moves alone and the locks are free
    (connection_pool.h): the steps of `PoolThreads` come to the reuse, the expiry and the
    order that the pool is for. */
module PoolRuns {
  import opened Bytes
  import opened PoolThreads

  /** Some moves of one thread lead from one state to the other. */
  ghost predicate Reaches(o: Pool, s: State, t: nat, e: State) {
    exists moves: seq<(nat, Choice)> :: By(t, moves) && RunFrom(o, s, moves) == e
  }

  ghost predicate By(t: nat, moves: seq<(nat, Choice)>) {
    forall i :: 0 <= i < |moves| ==> moves[i].0 == t
  }

  /** The thread at this stage, the others where they are. */
  function At(s: State, t: nat, g: Shared, st: Stage): State
    requires t < |s.threads|
  {
    State(g, s.threads[t := st])
  }

  predicate Free(g: Shared) { g.mutex == None && g.spareMutex == None }

  lemma Begin(o: Pool, s: State, t: nat)
    requires t < |s.threads|
    ensures Reaches(o, s, t, At(s, t, s.g, s.threads[t]))
  {
    var none: seq<(nat, Choice)> := [];
    assert By(t, none) && RunFrom(o, s, none) == s;
    assert s.threads[t := s.threads[t]] == s.threads;
  }

  /** One step more. */
  lemma Step(o: Pool, s: State, t: nat, g: Shared, st: Stage, c: Choice)
    requires t < |s.threads| && Reaches(o, s, t, At(s, t, g, st)) && Act(o, g, t, st, c).Go?
    ensures Reaches(o, s, t, At(s, t, Act(o, g, t, st, c).g, Act(o, g, t, st, c).next))
  {
    hide Act;
    var e := At(s, t, g, st);
    var moves: seq<(nat, Choice)> :| By(t, moves) && RunFrom(o, s, moves) == e;
    var last: seq<(nat, Choice)> := [(t, c)];
    RunOn(o, s, moves, last);
    var none: seq<(nat, Choice)> := [];
    assert last[1..] == none;
    assert RunFrom(o, e, last) == RunFrom(o, Move(o, e, (t, c)), none);
    assert e.threads[t := Act(o, g, t, st, c).next] == s.threads[t := Act(o, g, t, st, c).next];
    assert By(t, moves + last);
  }

  const YES := Choice(false, true, 0)
  const NO := Choice(false, false, 0)

  // ---------- The parts of a call ----------

  /** Garbage collection: the block is the first spare one, and the counter goes down. */
  lemma Collect(o: Pool, s: State, t: nat, g: Shared, item: Block, back: After)
    requires t < |s.threads| && Free(g) && Reaches(o, s, t, At(s, t, g, Destroy(item, back)))
    ensures Reaches(o, s, t, At(s, t, g.(spare := [item] + g.spare, active := g.active - 1), Resumed(back)))
  {
    hide Reaches;
    var g1 := g.(spareMutex := Some(t));
    var g2 := g1.(spare := [item] + g.spare);
    Step(o, s, t, g, Destroy(item, back), YES);
    Step(o, s, t, g1, PushSpare(item, back), YES);
    Step(o, s, t, g2, UnlockSpare(back), YES);
    Step(o, s, t, g2.(spareMutex := None), Decrement(back), YES);
    assert g2.(spareMutex := None, active := g.active - 1) == g.(spare := [item] + g.spare, active := g.active - 1);
  }

  /** The item at the back has expired. */
  lemma EvictOne(o: Pool, s: State, t: nat, g: Shared)
    requires t < |s.threads| && Free(g) && g.idle != [] && Reaches(o, s, t, At(s, t, g, LockExpiry))
    ensures var n := |g.idle| - 1;
      Reaches(o, s, t, At(s, t, g.(idle := g.idle[..n], spare := [g.idle[n]] + g.spare, active := g.active - 1), LockExpiry))
  {
    hide Reaches;
    var n := |g.idle| - 1;
    var g1 := g.(mutex := Some(t));
    var g2 := g1.(idle := g.idle[..n]);
    Step(o, s, t, g, LockExpiry, YES);
    Step(o, s, t, g1, Expiry, YES);
    Step(o, s, t, g2, UnlockExpired(g.idle[n]), YES);
    assert g2.(mutex := None) == g.(idle := g.idle[..n]);
    Collect(o, s, t, g.(idle := g.idle[..n]), g.idle[n], ToExpiry);
  }

  /** The item at the back has not expired, or there is none. */
  lemma ExpiryEnds(o: Pool, s: State, t: nat, g: Shared)
    requires t < |s.threads| && Free(g) && Reaches(o, s, t, At(s, t, g, LockExpiry))
    ensures Reaches(o, s, t, At(s, t, g, LockFront))
  {
    hide Reaches;
    var g1 := g.(mutex := Some(t));
    Step(o, s, t, g, LockExpiry, NO);
    Step(o, s, t, g1, Expiry, NO);
    assert g1.(mutex := None) == g;
  }

  /** The front item has lived too long. */
  lemma DropOne(o: Pool, s: State, t: nat, g: Shared)
    requires t < |s.threads| && Free(g) && g.idle != [] && Reaches(o, s, t, At(s, t, g, LockFront))
    ensures Reaches(o, s, t,
      At(s, t, g.(idle := g.idle[1..], spare := [g.idle[0]] + g.spare, active := g.active - 1), LockFront))
  {
    hide Reaches;
    var g1 := g.(mutex := Some(t));
    var g2 := g1.(idle := g.idle[1..]);
    Step(o, s, t, g, LockFront, NO);
    Step(o, s, t, g1, Front, NO);
    Step(o, s, t, g2, UnlockFront(g.idle[0]), NO);
    assert g2.(mutex := None) == g.(idle := g.idle[1..]);
    Collect(o, s, t, g.(idle := g.idle[1..]), g.idle[0], ToFront);
  }

  /** The front item is young enough. */
  lemma TakeFront(o: Pool, s: State, t: nat, g: Shared)
    requires t < |s.threads| && Free(g) && g.idle != [] && Reaches(o, s, t, At(s, t, g, LockFront))
    ensures Reaches(o, s, t, At(s, t, g.(idle := g.idle[1..], held := g.held + multiset{g.idle[0]}), Outside))
  {
    hide Reaches;
    var g1 := g.(mutex := Some(t));
    var g2 := g1.(idle := g.idle[1..]);
    Step(o, s, t, g, LockFront, YES);
    Step(o, s, t, g1, Front, YES);
    Step(o, s, t, g2, UnlockFront(g.idle[0]), YES);
    assert g2.(mutex := None, held := g.held + multiset{g.idle[0]})
      == g.(idle := g.idle[1..], held := g.held + multiset{g.idle[0]});
  }

  lemma NoFront(o: Pool, s: State, t: nat, g: Shared)
    requires t < |s.threads| && Free(g) && g.idle == [] && Reaches(o, s, t, At(s, t, g, LockFront))
    ensures Reaches(o, s, t, At(s, t, g, LockSpare))
  {
    hide Reaches;
    var g1 := g.(mutex := Some(t));
    Step(o, s, t, g, LockFront, YES);
    Step(o, s, t, g1, Front, YES);
    assert g1.(mutex := None) == g;
  }

  /** A new connection in the first spare block, if its initialisation succeeds. */
  lemma TakeSpare(o: Pool, s: State, t: nat, g: Shared, ok: bool)
    requires t < |s.threads| && Free(g) && g.spare != [] && Reaches(o, s, t, At(s, t, g, LockSpare))
    ensures Reaches(o, s, t, At(s, t, if ok || !o.hasInit then
      g.(spare := g.spare[1..], active := g.active + 1, held := g.held + multiset{g.spare[0]}) else g, Outside))
  {
    hide Reaches;
    var item := g.spare[0];
    var g1 := g.(spareMutex := Some(t));
    var g2 := g.(spare := g.spare[1..]);
    var g3 := g2.(active := g.active + 1);
    Step(o, s, t, g, LockSpare, YES);
    Step(o, s, t, g1, Spare, YES);
    assert g1.(spare := g.spare[1..], spareMutex := None) == g2;
    Step(o, s, t, g2, Increment(item), YES);
    Built(o, s, t, g3, item, ok);
    assert [item] + g.spare[1..] == g.spare;
  }

  lemma Built(o: Pool, s: State, t: nat, g: Shared, item: Block, ok: bool)
    requires t < |s.threads| && Free(g) && Reaches(o, s, t, At(s, t, g, Construct(item)))
    ensures Reaches(o, s, t, At(s, t, if ok || !o.hasInit then g.(held := g.held + multiset{item})
      else g.(spare := [item] + g.spare, active := g.active - 1), Outside))
  {
    hide Reaches;
    Step(o, s, t, g, Construct(item), Choice(false, ok, 0));
    if !ok && o.hasInit { Collect(o, s, t, g, item, ToReturn); }
  }

  /** A new connection in a fresh block. */
  lemma TakeFresh(o: Pool, s: State, t: nat, g: Shared, b: Block, ok: bool)
    requires t < |s.threads| && Free(g) && g.spare == [] && b !in g.blocks && Reaches(o, s, t, At(s, t, g, LockSpare))
    ensures Reaches(o, s, t, At(s, t, if ok || !o.hasInit then
      g.(blocks := g.blocks + {b}, active := g.active + 1, held := g.held + multiset{b})
      else g.(blocks := g.blocks + {b}, spare := [b]), Outside))
  {
    hide Reaches;
    var g1 := g.(spareMutex := Some(t));
    var g2 := g.(blocks := g.blocks + {b});
    Step(o, s, t, g, LockSpare, YES);
    Step(o, s, t, g1, Spare, YES);
    assert g1.(spareMutex := None) == g;
    Step(o, s, t, g, Malloc, Choice(false, true, b));
    Step(o, s, t, g2, Increment(b), YES);
    Built(o, s, t, g2.(active := g.active + 1), b, ok);
    assert [b] + g.spare == [b];
  }

  // ---------- Get ----------

  predicate Below(o: Pool, g: Shared) { o.maxActive <= 0 || g.active < o.maxActive }

  lemma EnterGet(o: Pool, s: State, t: nat)
    requires t < |s.threads| && s.threads[t] == Outside && Below(o, s.g)
    ensures Reaches(o, s, t, At(s, t, s.g, if o.idleTimeout > 0 then LockExpiry else LockFront))
  {
    hide Reaches;
    Begin(o, s, t);
    Step(o, s, t, s.g, Outside, YES);
    Step(o, s, t, s.g, Check, YES);
  }

  /** At the limit a call comes back with nothing, whatever is idle. */
  lemma GetRefused(o: Pool, s: State, t: nat)
    requires t < |s.threads| && s.threads[t] == Outside && !Below(o, s.g)
    ensures Move(o, Move(o, s, (t, YES)), (t, YES)) == s
  {
    assert s.threads[t := Check][t := Outside] == s.threads;
  }

  /** The last `e` items go, the last one first. */
  ghost function Evicted(g: Shared, e: nat): Shared
    requires e <= |g.idle|
  {
    var n := |g.idle| - e;
    g.(idle := g.idle[..n], spare := g.idle[n..] + g.spare, active := g.active - e)
  }

  lemma {:induction false} EvictMany(o: Pool, s: State, t: nat, g: Shared, e: nat)
    requires t < |s.threads| && Free(g) && e <= |g.idle| && Reaches(o, s, t, At(s, t, g, LockExpiry))
    ensures Reaches(o, s, t, At(s, t, Evicted(g, e), LockExpiry))
  {
    hide Reaches;
    var n := |g.idle| - e;
    if e == 0 {
      assert g.idle[..n] == g.idle && g.idle[n..] + g.spare == g.spare;
    } else {
      EvictMany(o, s, t, g, e - 1);
      EvictOne(o, s, t, Evicted(g, e - 1));
      assert g.idle[..n + 1][..n] == g.idle[..n];
      assert [g.idle[n]] + (g.idle[n + 1..] + g.spare) == g.idle[n..] + g.spare;
    }
  }

  ghost function Reversed(q: seq<Block>): (r: seq<Block>)
    ensures |r| == |q| && forall i :: 0 <= i < |q| ==> r[i] == q[|q| - 1 - i]
  {
    seq(|q|, i requires 0 <= i < |q| => q[|q| - 1 - i])
  }

  /** The first `k` items go, the first one first. */
  ghost function Dropped(g: Shared, k: nat): Shared
    requires k <= |g.idle|
  {
    g.(idle := g.idle[k..], spare := Reversed(g.idle[..k]) + g.spare, active := g.active - k)
  }

  lemma {:induction false} DropMany(o: Pool, s: State, t: nat, g: Shared, k: nat)
    requires t < |s.threads| && Free(g) && k <= |g.idle| && Reaches(o, s, t, At(s, t, g, LockFront))
    ensures Reaches(o, s, t, At(s, t, Dropped(g, k), LockFront))
  {
    hide Reaches;
    if k == 0 {
      assert g.idle[0..] == g.idle && Reversed(g.idle[..0]) + g.spare == g.spare;
    } else {
      DropMany(o, s, t, g, k - 1);
      DropOne(o, s, t, Dropped(g, k - 1));
      assert g.idle[k - 1..][1..] == g.idle[k..];
      assert [g.idle[k - 1]] + (Reversed(g.idle[..k - 1]) + g.spare) == Reversed(g.idle[..k]) + g.spare;
    }
  }

  /** Get up to the point where it reuses or makes a connection: `e` items at the back have
      expired, then `k` at the front have lived too long. */
  ghost function Searched(g: Shared, e: nat, k: nat): Shared
    requires e + k <= |g.idle|
  {
    Dropped(Evicted(g, e), k)
  }

  lemma Search(o: Pool, s: State, t: nat, e: nat, k: nat)
    requires t < |s.threads| && s.threads[t] == Outside && Below(o, s.g) && Free(s.g)
    requires e + k <= |s.g.idle| && (o.idleTimeout <= 0 ==> e == 0)
    ensures Reaches(o, s, t, At(s, t, Searched(s.g, e, k), LockFront))
  {
    hide Reaches;
    EnterGet(o, s, t);
    if o.idleTimeout > 0 {
      EvictMany(o, s, t, s.g, e);
      ExpiryEnds(o, s, t, Evicted(s.g, e));
    } else {
      assert Evicted(s.g, 0) == s.g by {
        assert s.g.idle[..|s.g.idle|] == s.g.idle && s.g.idle[|s.g.idle|..] + s.g.spare == s.g.spare;
      }
    }
    DropMany(o, s, t, Evicted(s.g, e), k);
  }

  /** When the last `e` idle connections have expired and the first `k` are too old, Get
      reuses the next one from the front: the caller has it, the blocks of the others are
      spare, and nothing is allocated. */
  lemma GetReuses(o: Pool, s: State, t: nat, e: nat, k: nat)
    requires t < |s.threads| && s.threads[t] == Outside && Below(o, s.g) && Free(s.g)
    requires e + k < |s.g.idle| && (o.idleTimeout <= 0 ==> e == 0)
    ensures var n := |s.g.idle| - e;
      Reaches(o, s, t, State(s.g.(
        idle := s.g.idle[k + 1..n], held := s.g.held + multiset{s.g.idle[k]},
        spare := Reversed(s.g.idle[..k]) + (s.g.idle[n..] + s.g.spare), active := s.g.active - e - k), s.threads))
  {
    hide Reaches;
    var n, g := |s.g.idle| - e, Searched(s.g, e, k);
    Search(o, s, t, e, k);
    TakeFront(o, s, t, g);
    assert s.g.idle[..n][..k] == s.g.idle[..k] && s.g.idle[..n][k..][1..] == s.g.idle[k + 1..n];
    assert s.threads[t := Outside] == s.threads;
  }

  /** With a young front and nothing expired, Get takes the front of the idle list. */
  lemma GetTakesFront(o: Pool, s: State, t: nat)
    requires t < |s.threads| && s.threads[t] == Outside && Below(o, s.g) && Free(s.g) && s.g.idle != []
    ensures Reaches(o, s, t, State(s.g.(idle := s.g.idle[1..], held := s.g.held + multiset{s.g.idle[0]}), s.threads))
  {
    hide Reaches;
    var idle, n := s.g.idle, |s.g.idle|;
    GetReuses(o, s, t, 0, 0);
    assert idle[1..n] == idle[1..] && Reversed(idle[..0]) + (idle[n..] + s.g.spare) == s.g.spare;
  }

  /** The same whatever is chosen at the other steps: it takes seven of them, or five without
      an idle timeout, and the clock decides at two. */
  lemma GetAlwaysTakesFront(o: Pool, s: State, t: nat, moves: seq<(nat, Choice)>)
    requires t < |s.threads| && s.threads[t] == Outside && Below(o, s.g) && Free(s.g) && s.g.idle != []
    requires By(t, moves) && |moves| == if o.idleTimeout > 0 then 7 else 5
    requires !moves[0].1.put && (o.idleTimeout > 0 ==> !moves[3].1.flag) && moves[|moves| - 1].1.flag
    ensures RunFrom(o, s, moves)
      == State(s.g.(idle := s.g.idle[1..], held := s.g.held + multiset{s.g.idle[0]}), s.threads)
  {
    hide RunFrom;
    var g, n := s.g, |moves| - 3;
    assert moves[0..] == moves && moves[|moves|..] == [] && s.threads[t := Outside] == s.threads;
    AlwaysToFront(o, s, t, moves);
    var locked := g.(mutex := Some(t));
    var taken := locked.(idle := g.idle[1..]);
    var end := g.(idle := g.idle[1..], held := g.held + multiset{g.idle[0]});
    assert taken.(mutex := None, held := g.held + multiset{g.idle[0]}) == end;
    FirstMove(o, s, t, moves, n, g, LockFront, locked, Front);
    FirstMove(o, s, t, moves, n + 1, locked, Front, taken, UnlockFront(g.idle[0]));
    FirstMove(o, s, t, moves, n + 2, taken, UnlockFront(g.idle[0]), end, Outside);
    NoMove(o, At(s, t, end, Outside), moves[|moves|..]);
  }

  /** How many moves lead to the front of the idle list when nothing has expired. */
  function Ahead(o: Pool): nat { if o.idleTimeout > 0 then 4 else 2 }

  lemma AlwaysToFront(o: Pool, s: State, t: nat, moves: seq<(nat, Choice)>)
    requires t < |s.threads| && s.threads[t] == Outside && Below(o, s.g) && Free(s.g)
    requires By(t, moves) && |moves| >= Ahead(o)
    requires !moves[0].1.put && (o.idleTimeout > 0 ==> s.g.idle == [] || !moves[3].1.flag)
    ensures RunFrom(o, s, moves) == RunFrom(o, At(s, t, s.g, LockFront), moves[Ahead(o)..])
  {
    hide RunFrom;
    var g := s.g;
    assert moves[0..] == moves && s.threads[t := Outside] == s.threads;
    FirstMove(o, s, t, moves, 0, g, Outside, g, Check);
    if o.idleTimeout > 0 {
      var locked := g.(mutex := Some(t));
      assert locked.(mutex := None) == g;
      FirstMove(o, s, t, moves, 1, g, Check, g, LockExpiry);
      FirstMove(o, s, t, moves, 2, g, LockExpiry, locked, Expiry);
      FirstMove(o, s, t, moves, 3, locked, Expiry, g, LockFront);
    } else {
      FirstMove(o, s, t, moves, 1, g, Check, g, LockFront);
    }
  }

  /** With nothing idle the spare blocks are next, and the first of them if there is one. */
  lemma AlwaysToSpare(o: Pool, s: State, t: nat, moves: seq<(nat, Choice)>)
    requires t < |s.threads| && s.threads[t] == Outside && Below(o, s.g) && Free(s.g) && s.g.idle == []
    requires By(t, moves) && |moves| >= Ahead(o) + 4 && !moves[0].1.put
    ensures RunFrom(o, s, moves) == RunFrom(o,
      if s.g.spare == [] then At(s, t, s.g, Malloc) else At(s, t, s.g.(spare := s.g.spare[1..]), Increment(s.g.spare[0])),
      moves[Ahead(o) + 4..])
  {
    hide RunFrom;
    var g, n := s.g, Ahead(o);
    AlwaysToFront(o, s, t, moves);
    var locked, spared := g.(mutex := Some(t)), g.(spareMutex := Some(t));
    assert locked.(mutex := None) == g && spared.(spareMutex := None) == g;
    FirstMove(o, s, t, moves, n, g, LockFront, locked, Front);
    FirstMove(o, s, t, moves, n + 1, locked, Front, g, LockSpare);
    FirstMove(o, s, t, moves, n + 2, g, LockSpare, spared, Spare);
    if g.spare == [] {
      FirstMove(o, s, t, moves, n + 3, spared, Spare, g, Malloc);
    } else {
      var taken := g.(spare := g.spare[1..]);
      assert spared.(spare := g.spare[1..], spareMutex := None) == taken;
      FirstMove(o, s, t, moves, n + 3, spared, Spare, taken, Increment(g.spare[0]));
    }
  }

  /** With nothing idle and something spare all moves of a Get whose initialisation succeeds
      end with the first spare block. */
  lemma GetAlwaysTakesSpare(o: Pool, s: State, t: nat, moves: seq<(nat, Choice)>)
    requires t < |s.threads| && s.threads[t] == Outside && Below(o, s.g) && Free(s.g) && s.g.idle == [] && s.g.spare != []
    requires By(t, moves) && |moves| == Ahead(o) + 6 && !moves[0].1.put && (moves[|moves| - 1].1.flag || !o.hasInit)
    ensures RunFrom(o, s, moves) == State(
      s.g.(spare := s.g.spare[1..], active := s.g.active + 1, held := s.g.held + multiset{s.g.spare[0]}), s.threads)
  {
    hide RunFrom;
    var n, b := Ahead(o), s.g.spare[0];
    var taken := s.g.(spare := s.g.spare[1..]);
    var counted := taken.(active := s.g.active + 1);
    AlwaysToSpare(o, s, t, moves);
    FirstMove(o, s, t, moves, n + 4, taken, Increment(b), counted, Construct(b));
    FirstMove(o, s, t, moves, n + 5, counted, Construct(b), counted.(held := s.g.held + multiset{b}), Outside);
    NoMove(o, At(s, t, counted.(held := s.g.held + multiset{b}), Outside), moves[n + 6..]);
    assert s.threads[t := Outside] == s.threads;
  }

  /** With nothing idle, nothing spare and no memory a Get changes nothing. */
  lemma GetNoMemory(o: Pool, s: State, t: nat, moves: seq<(nat, Choice)>)
    requires t < |s.threads| && s.threads[t] == Outside && Below(o, s.g) && Free(s.g) && s.g.idle == [] && s.g.spare == []
    requires By(t, moves) && |moves| == Ahead(o) + 5 && !moves[0].1.put && !moves[|moves| - 1].1.flag
    ensures RunFrom(o, s, moves) == s
  {
    hide RunFrom;
    var n := Ahead(o);
    AlwaysToSpare(o, s, t, moves);
    FirstMove(o, s, t, moves, n + 4, s.g, Malloc, s.g, Outside);
    NoMove(o, At(s, t, s.g, Outside), moves[n + 5..]);
    assert s.threads[t := Outside] == s.threads;
  }

  lemma NoMove(o: Pool, s: State, moves: seq<(nat, Choice)>)
    requires moves == []
    ensures RunFrom(o, s, moves) == s
  {}

  lemma FirstMove(o: Pool, s: State, t: nat, moves: seq<(nat, Choice)>, k: nat, g: Shared, st: Stage, g': Shared, next: Stage)
    requires t < |s.threads| && k < |moves| && By(t, moves) && Act(o, g, t, st, moves[k].1) == Go(g', next)
    ensures RunFrom(o, At(s, t, g, st), moves[k..]) == RunFrom(o, At(s, t, g', next), moves[k + 1..])
  {
    hide Act;
    assert moves[k] == (t, moves[k].1) && moves[k..][1..] == moves[k + 1..];
    assert s.threads[t := st][t := next] == s.threads[t := next];
  }

  /** When every idle connection has expired or is too old, Get makes a new one in the first
      spare block, the one that it has just collected if there is any, and only without a
      spare block in a fresh one. A failed initialisation leaves the block a spare one. */
  lemma GetMakes(o: Pool, s: State, t: nat, e: nat, k: nat, b: Block, ok: bool)
    requires t < |s.threads| && s.threads[t] == Outside && Below(o, s.g) && Free(s.g)
    requires e + k == |s.g.idle| && (o.idleTimeout <= 0 ==> e == 0) && b !in s.g.blocks
    ensures var g := s.g.(
        idle := [], spare := Reversed(s.g.idle[..k]) + (s.g.idle[k..] + s.g.spare), active := s.g.active - e - k);
      Reaches(o, s, t, State(
        if ok || !o.hasInit then
          if g.spare != [] then
            g.(spare := g.spare[1..], active := g.active + 1, held := g.held + multiset{g.spare[0]})
          else g.(blocks := g.blocks + {b}, active := g.active + 1, held := g.held + multiset{b})
        else if g.spare != [] then g
        else g.(blocks := g.blocks + {b}, spare := [b]), s.threads))
  {
    hide Reaches;
    var n, g := |s.g.idle| - e, Searched(s.g, e, k);
    Search(o, s, t, e, k);
    assert s.g.idle[..n][..k] == s.g.idle[..k] && s.g.idle[..n][k..] == [];
    NoFront(o, s, t, g);
    if g.spare != [] { TakeSpare(o, s, t, g, ok); } else { TakeFresh(o, s, t, g, b, ok); }
    assert s.threads[t := Outside] == s.threads;
  }

  // ---------- Put ----------

  lemma EnterPut(o: Pool, s: State, t: nat, b: Block, isOk: bool)
    requires t < |s.threads| && s.threads[t] == Outside && b in s.g.held
    ensures Reaches(o, s, t, At(s, t, s.g.(held := s.g.held - multiset{b}), if isOk then LockPut(b) else Destroy(b, ToReturn)))
  {
    hide Reaches;
    Begin(o, s, t);
    Step(o, s, t, s.g, Outside, Choice(true, isOk, b));
    Step(o, s, t, s.g.(held := s.g.held - multiset{b}), Stamp(b, isOk), YES);
  }

  /** A broken connection ends. */
  lemma PutBroken(o: Pool, s: State, t: nat, b: Block)
    requires t < |s.threads| && s.threads[t] == Outside && b in s.g.held && Free(s.g)
    ensures Reaches(o, s, t, State(
      s.g.(held := s.g.held - multiset{b}, spare := [b] + s.g.spare, active := s.g.active - 1), s.threads))
  {
    hide Reaches;
    EnterPut(o, s, t, b, false);
    Collect(o, s, t, s.g.(held := s.g.held - multiset{b}), b, ToReturn);
    assert s.threads[t := Outside] == s.threads;
  }

  /** A good connection is the first idle one. Past max_idle the last one ends. */
  lemma PutKeeps(o: Pool, s: State, t: nat, b: Block)
    requires t < |s.threads| && s.threads[t] == Outside && b in s.g.held && Free(s.g)
    ensures var g, idle := s.g.(held := s.g.held - multiset{b}), [b] + s.g.idle;
      Reaches(o, s, t, State(
        if o.maxIdle <= 0 || |s.g.idle| < o.maxIdle then g.(idle := idle)
        else g.(idle := idle[..|s.g.idle|], spare := [idle[|s.g.idle|]] + g.spare, active := g.active - 1), s.threads))
  {
    hide Reaches;
    var g, idle, n := s.g.(held := s.g.held - multiset{b}), [b] + s.g.idle, |s.g.idle|;
    var g1 := g.(mutex := Some(t));
    EnterPut(o, s, t, b, true);
    Step(o, s, t, g, LockPut(b), YES);
    Step(o, s, t, g1, Push(b), YES);
    if o.maxIdle <= 0 || n < o.maxIdle {
      Step(o, s, t, g1.(idle := idle), UnlockPut(None), YES);
      assert g1.(idle := idle, mutex := None) == g.(idle := idle);
    } else {
      Step(o, s, t, g1.(idle := idle[..n]), UnlockPut(Some(idle[n])), YES);
      assert g1.(idle := idle[..n], mutex := None) == g.(idle := idle[..n]);
      Collect(o, s, t, g.(idle := idle[..n]), idle[n], ToReturn);
    }
    assert s.threads[t := Outside] == s.threads;
  }

  lemma AlwaysToLock(o: Pool, s: State, t: nat, b: Block, moves: seq<(nat, Choice)>)
    requires t < |s.threads| && s.threads[t] == Outside && b in s.g.held
    requires By(t, moves) && |moves| >= 2 && moves[0].1 == Choice(true, true, b)
    ensures RunFrom(o, s, moves) == RunFrom(o, At(s, t, s.g.(held := s.g.held - multiset{b}), LockPut(b)), moves[2..])
  {
    hide RunFrom;
    var g := s.g.(held := s.g.held - multiset{b});
    assert moves[0..] == moves && s.threads[t := Outside] == s.threads;
    FirstMove(o, s, t, moves, 0, s.g, Outside, g, Stamp(b, true));
    FirstMove(o, s, t, moves, 1, g, Stamp(b, true), g, LockPut(b));
  }

  /** All moves of a Put of a good connection within max_idle make it the first idle one. */
  lemma PutAlwaysKeeps(o: Pool, s: State, t: nat, b: Block, moves: seq<(nat, Choice)>)
    requires t < |s.threads| && s.threads[t] == Outside && b in s.g.held && Free(s.g)
    requires o.maxIdle <= 0 || |s.g.idle| < o.maxIdle
    requires By(t, moves) && |moves| == 5 && moves[0].1 == Choice(true, true, b)
    ensures RunFrom(o, s, moves) == State(s.g.(held := s.g.held - multiset{b}, idle := [b] + s.g.idle), s.threads)
  {
    hide RunFrom;
    var g := s.g.(held := s.g.held - multiset{b});
    AlwaysToLock(o, s, t, b, moves);
    PushAlways(o, s, t, g, b, moves);
    NoMove(o, At(s, t, g.(idle := [b] + g.idle), Outside), moves[5..]);
    assert s.threads[t := Outside] == s.threads;
  }

  lemma PushAlways(o: Pool, s: State, t: nat, g: Shared, b: Block, moves: seq<(nat, Choice)>)
    requires t < |s.threads| && Free(g) && (o.maxIdle <= 0 || |g.idle| < o.maxIdle) && By(t, moves) && |moves| == 5
    ensures RunFrom(o, At(s, t, g, LockPut(b)), moves[2..])
      == RunFrom(o, At(s, t, g.(idle := [b] + g.idle), Outside), moves[5..])
  {
    hide RunFrom;
    var locked, pushed := g.(mutex := Some(t)), g.(idle := [b] + g.idle);
    FirstMove(o, s, t, moves, 2, g, LockPut(b), locked, Push(b));
    FirstMove(o, s, t, moves, 3, locked, Push(b), locked.(idle := [b] + g.idle), UnlockPut(None));
    assert locked.(idle := [b] + g.idle).(mutex := None) == pushed;
    FirstMove(o, s, t, moves, 4, locked.(idle := [b] + g.idle), UnlockPut(None), pushed, Outside);
  }
}
