/** The connection pool under N threads (connection_pool.h): every lock, unlock,
    critical section and atomic counter update is a step of its own, and threads
    interleave freely. What the clocks say is left open. */
module PoolThreads {
  import opened Bytes

  /** The address of an allocated block: a list item with its connection. */
  type Block = nat

  datatype Pool = Pool(maxIdle: int, maxActive: int, idleTimeout: int, hasInit: bool)

  /** Where a garbage collection was started from. */
  datatype After = ToExpiry | ToFront | ToReturn

  /** The next action of a thread. */
  datatype Stage =
    | Outside
    // Get
    | Check
    | LockExpiry | Expiry | UnlockExpired(item: Block)
    | LockFront | Front | UnlockFront(item: Block)
    // GetNewInstance
    | LockSpare | Spare | Malloc | Increment(item: Block) | Construct(item: Block)
    // Put
    | Stamp(item: Block, isOk: bool) | LockPut(item: Block) | Push(item: Block) | UnlockPut(evicted: Option<Block>)
    // Gc
    | Destroy(item: Block, back: After) | PushSpare(item: Block, back: After) | UnlockSpare(back: After)
    | Decrement(back: After)

  /** What the threads share. `held` are the connections callers have, `blocks` all
      that were ever obtained from malloc. */
  datatype Shared = Shared(
    active: int, idle: seq<Block>, spare: seq<Block>, held: multiset<Block>, blocks: set<Block>,
    mutex: Option<nat>, spareMutex: Option<nat>)

  datatype State = State(g: Shared, threads: seq<Stage>)

  /** What a step leaves to the caller, the clock or the allocator. */
  datatype Choice = Choice(put: bool, flag: bool, block: Block)

  datatype Effect = Wait | Go(g: Shared, next: Stage)

  function Resumed(back: After): Stage {
    match back case ToExpiry => LockExpiry case ToFront => LockFront case ToReturn => Outside
  }

  /** The next step of thread `t` at stage `st`, or that it has to wait. */
  function Act(o: Pool, g: Shared, t: nat, st: Stage, c: Choice): Effect {
    match st
    case Outside =>
      if !c.put then Go(g, Check)
      else if c.block !in g.held then Wait
      else Go(g.(held := g.held - multiset{c.block}), Stamp(c.block, c.flag))

    case Check =>
      if o.maxActive > 0 && g.active >= o.maxActive then Go(g, Outside)
      else Go(g, if o.idleTimeout > 0 then LockExpiry else LockFront)
    case LockExpiry => if g.mutex.Some? then Wait else Go(g.(mutex := Some(t)), Expiry)
    case Expiry =>
      // The flag says whether the item at the back has expired.
      if g.idle == [] || !c.flag then Go(g.(mutex := None), LockFront)
      else Go(g.(idle := g.idle[..|g.idle| - 1]), UnlockExpired(g.idle[|g.idle| - 1]))
    case UnlockExpired(item) => Go(g.(mutex := None), Destroy(item, ToExpiry))
    case LockFront => if g.mutex.Some? then Wait else Go(g.(mutex := Some(t)), Front)
    case Front =>
      if g.idle == [] then Go(g.(mutex := None), LockSpare)
      else Go(g.(idle := g.idle[1..]), UnlockFront(g.idle[0]))
    case UnlockFront(item) =>
      // The flag says whether the item is still within its life time.
      if c.flag then Go(g.(mutex := None, held := g.held + multiset{item}), Outside)
      else Go(g.(mutex := None), Destroy(item, ToFront))

    case LockSpare => if g.spareMutex.Some? then Wait else Go(g.(spareMutex := Some(t)), Spare)
    case Spare =>
      if g.spare == [] then Go(g.(spareMutex := None), Malloc)
      else Go(g.(spare := g.spare[1..], spareMutex := None), Increment(g.spare[0]))
    case Malloc =>
      // The flag says whether memory is left; it is then a block not yet in use.
      if !c.flag then Go(g, Outside)
      else if c.block in g.blocks then Wait
      else Go(g.(blocks := g.blocks + {c.block}), Increment(c.block))
    case Increment(item) => Go(g.(active := g.active + 1), Construct(item))
    case Construct(item) =>
      // The flag says whether the init handler succeeds.
      if o.hasInit && !c.flag then Go(g, Destroy(item, ToReturn))
      else Go(g.(held := g.held + multiset{item}), Outside)

    case Stamp(item, isOk) => Go(g, if isOk then LockPut(item) else Destroy(item, ToReturn))
    case LockPut(item) => if g.mutex.Some? then Wait else Go(g.(mutex := Some(t)), Push(item))
    case Push(item) =>
      var idle := [item] + g.idle;
      if o.maxIdle > 0 && |idle| > o.maxIdle then
        Go(g.(idle := idle[..|idle| - 1]), UnlockPut(Some(idle[|idle| - 1])))
      else Go(g.(idle := idle), UnlockPut(None))
    case UnlockPut(evicted) =>
      Go(g.(mutex := None), if evicted.Some? then Destroy(evicted.value, ToReturn) else Outside)

    case Destroy(item, back) => if g.spareMutex.Some? then Wait else Go(g.(spareMutex := Some(t)), PushSpare(item, back))
    case PushSpare(item, back) => Go(g.(spare := [item] + g.spare), UnlockSpare(back))
    case UnlockSpare(back) => Go(g.(spareMutex := None), Decrement(back))
    case Decrement(back) => Go(g.(active := g.active - 1), Resumed(back))
  }

  function Start(n: nat): State {
    State(Shared(0, [], [], multiset{}, {}, None, None), seq(n, _ => Outside))
  }

  /** One scheduling decision; a thread that has to wait does nothing. */
  function Move(o: Pool, s: State, m: (nat, Choice)): State {
    if m.0 >= |s.threads| then s else
    match Act(o, s.g, m.0, s.threads[m.0], m.1)
    case Wait => s
    case Go(g, next) => State(g, s.threads[m.0 := next])
  }

  function RunFrom(o: Pool, s: State, moves: seq<(nat, Choice)>): State
    decreases |moves|
  {
    if moves == [] then s else RunFrom(o, Move(o, s, moves[0]), moves[1..])
  }

  function Run(o: Pool, n: nat, moves: seq<(nat, Choice)>): State { RunFrom(o, Start(n), moves) }

  // ---- what threads have in hand ----

  /** The block a thread has between two places. */
  function Hand(st: Stage): Option<Block> {
    match st
    case UnlockExpired(b) => Some(b)
    case UnlockFront(b) => Some(b)
    case Increment(b) => Some(b)
    case Construct(b) => Some(b)
    case Stamp(b, _) => Some(b)
    case LockPut(b) => Some(b)
    case Push(b) => Some(b)
    case UnlockPut(e) => e
    case Destroy(b, _) => Some(b)
    case PushSpare(b, _) => Some(b)
    case _ => None
  }

  /** How often a block is in a thread's hand, in a list, in a set. */
  function InHand(st: Stage, b: Block): nat { if Hand(st) == Some(b) then 1 else 0 }

  function Count(q: seq<Block>, b: Block): nat {
    if q == [] then 0 else (if q[0] == b then 1 else 0) + Count(q[1..], b)
  }

  function Once(q: set<Block>, b: Block): nat { if b in q then 1 else 0 }

  /** Whether the counter still counts, or already counts, the thread's block. */
  function Counted(st: Stage): nat {
    match st
    case UnlockExpired(_) => 1
    case UnlockFront(_) => 1
    case Construct(_) => 1
    case Stamp(_, _) => 1 case LockPut(_) => 1 case Push(_) => 1
    case UnlockPut(e) => if e.Some? then 1 else 0
    case Destroy(_, _) => 1 case PushSpare(_, _) => 1 case UnlockSpare(_) => 1 case Decrement(_) => 1
    case _ => 0
  }

  /** Past the max_active test, and the counter not yet raised. */
  function Passed(st: Stage): nat {
    match st
    case LockExpiry => 1 case Expiry => 1 case UnlockExpired(_) => 1
    case LockFront => 1 case Front => 1 case UnlockFront(_) => 1
    case LockSpare => 1 case Spare => 1 case Malloc => 1 case Increment(_) => 1
    case Destroy(_, back) => if back == ToReturn then 0 else 1
    case PushSpare(_, back) => if back == ToReturn then 0 else 1
    case UnlockSpare(back) => if back == ToReturn then 0 else 1
    case Decrement(back) => if back == ToReturn then 0 else 1
    case _ => 0
  }

  function InFlight(ts: seq<Stage>, b: Block): nat {
    if ts == [] then 0 else InHand(ts[0], b) + InFlight(ts[1..], b)
  }

  function CountedAll(ts: seq<Stage>): nat {
    if ts == [] then 0 else Counted(ts[0]) + CountedAll(ts[1..])
  }

  function PassedAll(ts: seq<Stage>): (n: nat)
    ensures n <= |ts|
  {
    if ts == [] then 0 else Passed(ts[0]) + PassedAll(ts[1..])
  }

  lemma {:induction false} InFlightMoved(ts: seq<Stage>, t: nat, next: Stage, b: Block)
    requires t < |ts|
    ensures InFlight(ts[t := next], b) + InHand(ts[t], b) == InFlight(ts, b) + InHand(next, b)
  {
    hide InHand;
    var us := ts[t := next];
    if t == 0 {
      assert us[1..] == ts[1..];
    } else {
      InFlightMoved(ts[1..], t - 1, next, b);
      assert us[0] == ts[0] && us[1..] == ts[1..][t - 1 := next];
      assert InFlight(us, b) == InHand(us[0], b) + InFlight(us[1..], b);
    }
  }

  lemma {:induction false} CountsMoved(ts: seq<Stage>, t: nat, next: Stage)
    requires t < |ts|
    ensures CountedAll(ts[t := next]) + Counted(ts[t]) == CountedAll(ts) + Counted(next)
    ensures PassedAll(ts[t := next]) + Passed(ts[t]) == PassedAll(ts) + Passed(next)
  {
    hide Counted, Passed;
    var us := ts[t := next];
    if t == 0 {
      assert us[1..] == ts[1..];
    } else {
      CountsMoved(ts[1..], t - 1, next);
      assert us[0] == ts[0] && us[1..] == ts[1..][t - 1 := next];
      assert CountedAll(us) == Counted(us[0]) + CountedAll(us[1..]);
      assert PassedAll(us) == Passed(us[0]) + PassedAll(us[1..]);
    }
  }

  // ---- the invariants ----

  predicate HoldsMutex(st: Stage) {
    st.Expiry? || st.UnlockExpired? || st.Front? || st.UnlockFront? || st.Push? || st.UnlockPut?
  }

  predicate HoldsSpareMutex(st: Stage) { st.Spare? || st.PushSpare? || st.UnlockSpare? }

  /** Both mutexes are owned by exactly the threads inside their critical sections. */
  ghost predicate LocksOk(s: State) {
    && (forall t: nat {:trigger s.threads[t]} :: t < |s.threads| ==>
          (HoldsMutex(s.threads[t]) <==> s.g.mutex == Some(t)) && (HoldsSpareMutex(s.threads[t]) <==> s.g.spareMutex == Some(t)))
    && (s.g.mutex.Some? ==> s.g.mutex.value < |s.threads|)
    && (s.g.spareMutex.Some? ==> s.g.spareMutex.value < |s.threads|)
  }

  function Stored(g: Shared, b: Block): nat { Count(g.idle, b) + Count(g.spare, b) + g.held[b] }

  /** Every block ever allocated is in exactly one place. */
  ghost predicate BlocksOk(s: State) {
    forall b: Block :: Stored(s.g, b) + InFlight(s.threads, b) == Once(s.g.blocks, b)
  }

  ghost predicate CounterOk(s: State) {
    s.g.active == |s.g.idle| + |s.g.held| + CountedAll(s.threads)
  }

  ghost predicate BoundOk(o: Pool, s: State) {
    o.maxActive > 0 ==> s.g.active + PassedAll(s.threads) <= o.maxActive - 1 + |s.threads|
  }

  /** The idle list never holds more than a positive max_idle. */
  ghost predicate IdleOk(o: Pool, g: Shared) {
    o.maxIdle > 0 ==> |g.idle| <= o.maxIdle
  }

  ghost predicate Inv(o: Pool, s: State) {
    LocksOk(s) && BlocksOk(s) && CounterOk(s) && BoundOk(o, s) && IdleOk(o, s.g)
  }

  /** A step changes each mutex as the thread's stage says. */
  lemma ActLocks(o: Pool, g: Shared, t: nat, st: Stage, c: Choice)
    requires HoldsMutex(st) ==> g.mutex == Some(t)
    requires HoldsSpareMutex(st) ==> g.spareMutex == Some(t)
    ensures match Act(o, g, t, st, c)
      case Wait => true
      case Go(g', next) =>
        && (if HoldsMutex(next) then g'.mutex == Some(t) && (g.mutex == None || g.mutex == Some(t))
            else g'.mutex == if HoldsMutex(st) then None else g.mutex)
        && (if HoldsSpareMutex(next) then g'.spareMutex == Some(t) && (g.spareMutex == None || g.spareMutex == Some(t))
            else g'.spareMutex == if HoldsSpareMutex(st) then None else g.spareMutex)
  {
  }

  lemma TakeFirst(q: seq<Block>, b: Block)
    requires q != []
    ensures Count(q, b) == (if q[0] == b then 1 else 0) + Count(q[1..], b)
  {
  }

  lemma {:induction false} TakeLast(q: seq<Block>, b: Block)
    requires q != []
    ensures Count(q, b) == Count(q[..|q| - 1], b) + (if q[|q| - 1] == b then 1 else 0)
  {
    if |q| > 1 {
      TakeLast(q[1..], b);
      assert q[1..][..|q| - 2] == q[..|q| - 1][1..];
    } else {
      assert q[1..] == [] && q[..0] == [];
    }
  }

  lemma PutFirst(item: Block, q: seq<Block>, b: Block)
    ensures Count([item] + q, b) == (if item == b then 1 else 0) + Count(q, b)
  {
    assert ([item] + q)[1..] == q;
  }

  /** A step moves blocks between the idle list, the spare list, the callers, malloc and
      its own hand, and loses none. */
  ghost predicate Conserves(o: Pool, g: Shared, t: nat, st: Stage, c: Choice, b: Block) {
    match Act(o, g, t, st, c)
    case Wait => true
    case Go(g', next) =>
      Stored(g', b) + InHand(next, b) + Once(g.blocks, b) == Stored(g, b) + InHand(st, b) + Once(g'.blocks, b)
  }

  lemma GetConserves(o: Pool, g: Shared, t: nat, st: Stage, c: Choice, b: Block)
    requires st.Check? || st.LockExpiry? || st.Expiry? || st.UnlockExpired? || st.LockFront? || st.Front? || st.UnlockFront?
    ensures Conserves(o, g, t, st, c, b)
  {
    hide Count;
    if g.idle != [] {
      TakeLast(g.idle, b);
      TakeFirst(g.idle, b);
    }
  }

  lemma NewConserves(o: Pool, g: Shared, t: nat, st: Stage, c: Choice, b: Block)
    requires st.LockSpare? || st.Spare? || st.Malloc? || st.Increment? || st.Construct?
    ensures Conserves(o, g, t, st, c, b)
  {
    hide Count;
    if g.spare != [] { TakeFirst(g.spare, b); }
  }

  lemma PutConserves(o: Pool, g: Shared, t: nat, st: Stage, c: Choice, b: Block)
    requires st.Outside? || st.Stamp? || st.LockPut? || st.UnlockPut?
    ensures Conserves(o, g, t, st, c, b)
  {
    hide Count;
  }

  lemma PushConserves(o: Pool, g: Shared, t: nat, st: Stage, c: Choice, b: Block)
    requires st.Push?
    ensures Conserves(o, g, t, st, c, b)
  {
    hide Count;
    PutFirst(st.item, g.idle, b);
    TakeLast([st.item] + g.idle, b);
  }

  lemma GcConserves(o: Pool, g: Shared, t: nat, st: Stage, c: Choice, b: Block)
    requires st.Destroy? || st.PushSpare? || st.UnlockSpare? || st.Decrement?
    ensures Conserves(o, g, t, st, c, b)
  {
    hide Count;
    if st.PushSpare? { PutFirst(st.item, g.spare, b); }
  }

  lemma ActConserves(o: Pool, g: Shared, t: nat, st: Stage, c: Choice, b: Block)
    ensures Conserves(o, g, t, st, c, b)
  {
    hide Act, Conserves;
    if st.LockSpare? || st.Spare? || st.Malloc? || st.Increment? || st.Construct? {
      NewConserves(o, g, t, st, c, b);
    } else if st.Push? {
      PushConserves(o, g, t, st, c, b);
    } else if st.Outside? || st.Stamp? || st.LockPut? || st.UnlockPut? {
      PutConserves(o, g, t, st, c, b);
    } else if st.Destroy? || st.PushSpare? || st.UnlockSpare? || st.Decrement? {
      GcConserves(o, g, t, st, c, b);
    } else {
      GetConserves(o, g, t, st, c, b);
    }
  }

  /** The counter follows idle and held connections and those in hand; the sum that the
      bound is about grows only where the test is passed. */
  lemma ActCounts(o: Pool, g: Shared, t: nat, st: Stage, c: Choice)
    ensures match Act(o, g, t, st, c)
      case Wait => true
      case Go(g', next) =>
        && g'.active + |g.idle| + |g.held| + Counted(st) == g.active + |g'.idle| + |g'.held| + Counted(next)
        && (if st.Check? && Passed(next) == 1 then g'.active == g.active && (o.maxActive > 0 ==> g.active < o.maxActive)
            else g'.active + Passed(next) <= g.active + Passed(st))
  {
  }

  /** A push and the eviction it calls for are one step. */
  lemma ActIdle(o: Pool, g: Shared, t: nat, st: Stage, c: Choice)
    requires IdleOk(o, g)
    ensures Act(o, g, t, st, c).Go? ==> IdleOk(o, Act(o, g, t, st, c).g)
  {}

  lemma MoveLocks(o: Pool, s: State, m: (nat, Choice))
    requires LocksOk(s)
    ensures LocksOk(Move(o, s, m)) && |Move(o, s, m).threads| == |s.threads|
  {
    hide Act, HoldsMutex, HoldsSpareMutex;
    if m.0 < |s.threads| { ActLocks(o, s.g, m.0, s.threads[m.0], m.1); }
  }

  lemma MoveBlocks(o: Pool, s: State, m: (nat, Choice))
    requires BlocksOk(s)
    ensures BlocksOk(Move(o, s, m))
  {
    hide Act, InHand, InFlight, Stored, Once;
    if m.0 < |s.threads| {
      var st := s.threads[m.0];
      match Act(o, s.g, m.0, st, m.1)
      case Wait =>
      case Go(g', next) =>
        forall b: Block ensures Stored(g', b) + InFlight(s.threads[m.0 := next], b) == Once(g'.blocks, b) {
          ActConserves(o, s.g, m.0, st, m.1, b);
          InFlightMoved(s.threads, m.0, next, b);
          assert Stored(s.g, b) + InFlight(s.threads, b) == Once(s.g.blocks, b);
        }
    }
  }

  lemma MoveCounts(o: Pool, s: State, m: (nat, Choice))
    requires CounterOk(s) && BoundOk(o, s)
    ensures CounterOk(Move(o, s, m)) && BoundOk(o, Move(o, s, m))
  {
    hide Act, Counted, Passed, CountedAll;
    if m.0 < |s.threads| {
      ActCounts(o, s.g, m.0, s.threads[m.0], m.1);
      match Act(o, s.g, m.0, s.threads[m.0], m.1)
      case Wait =>
      case Go(_, next) => CountsMoved(s.threads, m.0, next);
    }
  }

  lemma {:induction false} StartInv(o: Pool, n: nat)
    ensures Inv(o, Start(n))
  {
    NothingInFlight(n);
  }

  lemma {:induction false} NothingInFlight(n: nat)
    ensures var ts: seq<Stage> := seq(n, _ => Outside);
      CountedAll(ts) == 0 && PassedAll(ts) == 0 && forall b: Block :: InFlight(ts, b) == 0
  {
    if n > 0 {
      NothingInFlight(n - 1);
      var ts: seq<Stage> := seq(n, _ => Outside);
      var ts': seq<Stage> := seq(n - 1, _ => Outside);
      assert ts[1..] == ts';
    }
  }

  lemma MoveInv(o: Pool, s: State, m: (nat, Choice))
    requires Inv(o, s)
    ensures Inv(o, Move(o, s, m)) && |Move(o, s, m).threads| == |s.threads|
  {
    hide LocksOk, BlocksOk, CounterOk, BoundOk, IdleOk, Act;
    if m.0 < |s.threads| { ActIdle(o, s.g, m.0, s.threads[m.0], m.1); }
    MoveLocks(o, s, m);
    MoveBlocks(o, s, m);
    MoveCounts(o, s, m);
  }

  lemma {:induction false} RunFromInv(o: Pool, s: State, moves: seq<(nat, Choice)>)
    requires Inv(o, s)
    ensures Inv(o, RunFrom(o, s, moves)) && |RunFrom(o, s, moves).threads| == |s.threads|
    decreases |moves|
  {
    if moves != [] {
      MoveInv(o, s, moves[0]);
      RunFromInv(o, Move(o, s, moves[0]), moves[1..]);
    }
  }

  /** Every interleaving of any number of calls keeps all of the invariants. */
  lemma RunInv(o: Pool, n: nat, moves: seq<(nat, Choice)>)
    ensures Inv(o, Run(o, n, moves)) && |Run(o, n, moves).threads| == n
  {
    StartInv(o, n);
    RunFromInv(o, Start(n), moves);
  }

  // ---- what follows for callers ----

  /** No connection is with two callers, or with a caller and anywhere else. */
  lemma HeldOnce(o: Pool, n: nat, moves: seq<(nat, Choice)>, b: Block)
    ensures var s := Run(o, n, moves);
      && Count(s.g.idle, b) + Count(s.g.spare, b) + s.g.held[b] + InFlight(s.threads, b)
         == (if b in s.g.blocks then 1 else 0)
      && (b in s.g.held ==> s.g.held[b] == 1 && b !in s.g.idle && b !in s.g.spare)
  {
    RunInv(o, n, moves);
    var s := Run(o, n, moves);
    assert Stored(s.g, b) + InFlight(s.threads, b) == Once(s.g.blocks, b);
    CountIsMultiset(s.g.idle, b);
    CountIsMultiset(s.g.spare, b);
  }

  lemma {:induction false} CountIsMultiset(q: seq<Block>, b: Block)
    ensures Count(q, b) == multiset(q)[b] && (Count(q, b) > 0 <==> b in q)
  {
    if q != [] {
      CountIsMultiset(q[1..], b);
      assert q == [q[0]] + q[1..];
    }
  }

  /** Two threads never have the same block in hand. */
  lemma InHandOnce(o: Pool, n: nat, moves: seq<(nat, Choice)>, t: nat, u: nat)
    requires t < u < n
    ensures var s := Run(o, n, moves);
      |s.threads| == n && (Hand(s.threads[t]) == Hand(s.threads[u]) ==> Hand(s.threads[t]) == None)
  {
    RunInv(o, n, moves);
    var s := Run(o, n, moves);
    if Hand(s.threads[t]).Some? {
      var b := Hand(s.threads[t]).value;
      assert Stored(s.g, b) + InFlight(s.threads, b) == Once(s.g.blocks, b);
      TwoHands(s.threads, t, u, b);
    }
  }

  lemma {:induction false} OneHand(ts: seq<Stage>, t: nat, b: Block)
    requires t < |ts|
    ensures InFlight(ts, b) >= InHand(ts[t], b)
  {
    if t > 0 { OneHand(ts[1..], t - 1, b); }
  }

  lemma {:induction false} TwoHands(ts: seq<Stage>, t: nat, u: nat, b: Block)
    requires t < u < |ts|
    ensures InFlight(ts, b) >= InHand(ts[t], b) + InHand(ts[u], b)
  {
    if t == 0 { OneHand(ts[1..], u - 1, b); } else { TwoHands(ts[1..], t - 1, u - 1, b); }
  }

  /** When no call is in flight, the counter counts idle and held connections, and all
      blocks are those and the spare ones. */
  lemma Quiescent(o: Pool, n: nat, moves: seq<(nat, Choice)>)
    requires forall t: nat :: t < |Run(o, n, moves).threads| ==> Run(o, n, moves).threads[t] == Outside
    ensures var g := Run(o, n, moves).g;
      g.active == |g.idle| + |g.held| && |g.blocks| == g.active + |g.spare|
  {
    RunInv(o, n, moves);
    var s := Run(o, n, moves);
    var ts: seq<Stage> := seq(n, _ => Outside);
    assert s.threads == ts;
    NothingInFlight(n);
    var all := multiset(s.g.idle) + multiset(s.g.spare) + s.g.held;
    forall b: Block ensures all[b] == multiset(s.g.blocks)[b] {
      assert Stored(s.g, b) + InFlight(s.threads, b) == Once(s.g.blocks, b);
      CountIsMultiset(s.g.idle, b);
      CountIsMultiset(s.g.spare, b);
    }
    assert all == multiset(s.g.blocks);
    assert |all| == |s.g.idle| + |s.g.spare| + |s.g.held|;
    assert CounterOk(s);
  }

  /** In every reachable state, also in the middle of calls, the idle list is within a
      positive max_idle. */
  lemma IdleBound(o: Pool, n: nat, moves: seq<(nat, Choice)>)
    requires o.maxIdle > 0
    ensures |Run(o, n, moves).g.idle| <= o.maxIdle
  {
    RunInv(o, n, moves);
  }

  /** The counter never runs ahead of max_active by more than the threads that passed
      the test together; with one thread it never exceeds it. */
  lemma AllocationBound(o: Pool, n: nat, moves: seq<(nat, Choice)>)
    requires o.maxActive > 0
    ensures var s := Run(o, n, moves);
      && 0 <= s.g.active && s.g.active + PassedAll(s.threads) <= o.maxActive - 1 + n
      && (n <= 1 ==> s.g.active <= o.maxActive)
  {
    RunInv(o, n, moves);
    var s := Run(o, n, moves);
    assert CounterOk(s) && BoundOk(o, s);
  }

  lemma {:induction false} RunOn(o: Pool, s: State, a: seq<(nat, Choice)>, b: seq<(nat, Choice)>)
    ensures RunFrom(o, s, a + b) == RunFrom(o, RunFrom(o, s, a), b)
    decreases |a|
  {
    if a == [] {
      assert a + b == b;
    } else {
      assert (a + b)[1..] == a[1..] + b;
      RunOn(o, Move(o, s, a[0]), a[1..], b);
    }
  }

  /** A thread past the test, alone with empty lists, gets a new block and counts it. */
  lemma Grows(o: Pool, s: State, t: nat, b: Block)
    requires t < |s.threads| && s.threads[t] == LockFront && s.g.idle == [] && s.g.spare == [] && b !in s.g.blocks
    requires s.g.mutex == None && s.g.spareMutex == None
    ensures var c := Choice(false, true, b);
      RunFrom(o, s, [(t, c), (t, c), (t, c), (t, c), (t, c), (t, c)])
      == State(s.g.(blocks := s.g.blocks + {b}, active := s.g.active + 1), s.threads[t := Construct(b)])
  {
    var c := Choice(false, true, b);
    var m := (t, c);
    var s1, s2, s3 := Move(o, s, m), Move(o, Move(o, s, m), m), Move(o, Move(o, Move(o, s, m), m), m);
    assert s2 == State(s.g, s.threads[t := LockSpare]);
    var s4 := Move(o, s3, m);
    assert s4 == State(s.g, s.threads[t := Malloc]);
    var s5 := Move(o, s4, m);
    assert s5 == State(s.g.(blocks := s.g.blocks + {b}), s.threads[t := Increment(b)]);
    SixMoves(o, s, m);
  }

  lemma SixMoves(o: Pool, s: State, m: (nat, Choice))
    ensures RunFrom(o, s, [m, m, m, m, m, m])
         == Move(o, Move(o, Move(o, Move(o, Move(o, Move(o, s, m), m), m), m), m), m)
  {
    hide Move;
    RunOn(o, s, [m, m, m], [m, m, m]);
    assert [m, m, m] + [m, m, m] == [m, m, m, m, m, m];
    ThreeMoves(o, s, m);
    ThreeMoves(o, RunFrom(o, s, [m, m, m]), m);
  }

  lemma ThreeMoves(o: Pool, s: State, m: (nat, Choice))
    ensures RunFrom(o, s, [m, m, m]) == Move(o, Move(o, Move(o, s, m), m), m)
  {
    hide Move;
    TwoMoves(o, Move(o, s, m), m, m);
    assert [m, m, m][1..] == [m, m];
  }

  lemma TwoMoves(o: Pool, s: State, m: (nat, Choice), k: (nat, Choice))
    ensures RunFrom(o, s, [m, k]) == Move(o, Move(o, s, m), k)
  {
    hide Move;
    var none: seq<(nat, Choice)> := [];
    assert [m, k][1..] == [k] && [k][1..] == none;
    assert RunFrom(o, Move(o, Move(o, s, m), k), none) == Move(o, Move(o, s, m), k);
    assert RunFrom(o, Move(o, s, m), [k]) == RunFrom(o, Move(o, Move(o, s, m), k), none);
  }

  // ---- the bound is met ----

  /** Nothing idle, nothing spare, no lock taken. */
  predicate Bare(g: Shared) {
    g.idle == [] && g.spare == [] && g.mutex == None && g.spareMutex == None
  }

  /** A call of Get comes past the test when the counter is below the limit. */
  lemma Passes(o: Pool, s: State, t: nat) returns (moves: seq<(nat, Choice)>)
    requires t < |s.threads| && s.threads[t] == Outside && Bare(s.g) && s.g.active < o.maxActive
    ensures RunFrom(o, s, moves) == State(s.g, s.threads[t := LockFront])
  {
    var m := (t, Choice(false, true, 0));
    var s2 := Move(o, Move(o, s, m), m);
    moves := [m, m];
    TwoMoves(o, s, m, m);
    if o.idleTimeout > 0 {
      assert s2 == State(s.g, s.threads[t := LockExpiry]);
      assert Move(o, Move(o, s2, m), m) == State(s.g, s.threads[t := LockFront]);
      TwoMoves(o, s2, m, m);
      RunOn(o, s, [m, m], [m, m]);
      moves := moves + [m, m];
    } else {
      assert s2 == State(s.g, s.threads[t := LockFront]);
    }
  }

  /** Past the test it makes a connection, which the counter counts and its caller holds. */
  lemma Makes(o: Pool, s: State, t: nat) returns (moves: seq<(nat, Choice)>, b: Block)
    requires t < |s.threads| && s.threads[t] == LockFront && Bare(s.g)
    ensures RunFrom(o, s, moves)
      == State(s.g.(blocks := s.g.blocks + {b}, active := s.g.active + 1, held := s.g.held + multiset{b}), s.threads[t := Outside])
  {
    b := Unused(s.g.blocks);
    var m := (t, Choice(false, true, b));
    Grows(o, s, t, b);
    var mid := RunFrom(o, s, [m, m, m, m, m, m]);
    RunOn(o, s, [m, m, m, m, m, m], [m]);
    moves := [m, m, m, m, m, m] + [m];
    var none: seq<(nat, Choice)> := [];
    assert [m][1..] == none;
    assert RunFrom(o, mid, [m]) == RunFrom(o, Move(o, mid, m), none);
  }

  /** One thread after the other, from `t` on, comes past the test. */
  lemma {:induction false} AllPass(o: Pool, s: State, t: nat) returns (moves: seq<(nat, Choice)>)
    requires t <= |s.threads| && Bare(s.g) && s.g.active < o.maxActive
    requires forall u :: t <= u < |s.threads| ==> s.threads[u] == Outside
    ensures var e := RunFrom(o, s, moves);
      && e.g == s.g && |e.threads| == |s.threads| && e.threads[..t] == s.threads[..t]
      && forall u :: t <= u < |s.threads| ==> e.threads[u] == LockFront
    decreases |s.threads| - t
  {
    moves := [];
    if t < |s.threads| {
      var first := Passes(o, s, t);
      var rest := AllPass(o, RunFrom(o, s, first), t + 1);
      RunOn(o, s, first, rest);
      moves := first + rest;
      var e := RunFrom(o, s, moves);
      assert e.threads[t] == e.threads[..t + 1][t];
      assert e.threads[..t] == e.threads[..t + 1][..t];
    }
  }

  /** One thread after the other makes its connection. */
  lemma {:induction false} AllMake(o: Pool, s: State, t: nat) returns (moves: seq<(nat, Choice)>)
    requires t <= |s.threads| && Bare(s.g)
    requires forall u :: t <= u < |s.threads| ==> s.threads[u] == LockFront
    ensures RunFrom(o, s, moves).g.active == s.g.active + |s.threads| - t
    decreases |s.threads| - t
  {
    moves := [];
    if t < |s.threads| {
      var first, _ := Makes(o, s, t);
      var rest := AllMake(o, RunFrom(o, s, first), t + 1);
      RunOn(o, s, first, rest);
      moves := first + rest;
    }
  }

  /** A thread alone makes `k` connections, as long as the limit allows. */
  lemma {:induction false} Fills(o: Pool, s: State, k: nat) returns (moves: seq<(nat, Choice)>)
    requires |s.threads| > 0 && s.threads[0] == Outside && Bare(s.g) && s.g.active + k <= o.maxActive
    ensures var e := RunFrom(o, s, moves);
      Bare(e.g) && e.g.active == s.g.active + k && e.threads == s.threads
    decreases k
  {
    moves := [];
    if k > 0 {
      var pass := Passes(o, s, 0);
      var past := RunFrom(o, s, pass);
      var make, _ := Makes(o, past, 0);
      RunOn(o, s, pass, make);
      var made := RunFrom(o, past, make);
      assert made.threads == s.threads;
      var rest := Fills(o, made, k - 1);
      RunOn(o, s, pass + make, rest);
      moves := pass + make + rest;
    }
  }

  /** The bound is exact: with any limit and any number of threads there is a run that
      meets it. The limit less one is filled first, then all threads pass the test before
      any of them raises the counter. */
  lemma BoundReached(o: Pool, n: nat) returns (moves: seq<(nat, Choice)>)
    requires o.maxActive > 0 && n > 0
    ensures Run(o, n, moves).g.active == o.maxActive - 1 + n
  {
    hide Move;
    var s := Start(n);
    var fill := Fills(o, s, o.maxActive - 1);
    var full := RunFrom(o, s, fill);
    var pass := AllPass(o, full, 0);
    var past := RunFrom(o, full, pass);
    var make := AllMake(o, past, 0);
    RunOn(o, s, fill, pass);
    RunOn(o, s, fill + pass, make);
    moves := fill + pass + make;
  }

  /** The counter stays within max_active in every run if and only if there is at most
      one thread. */
  lemma PlainBoundIff(o: Pool, n: nat)
    requires o.maxActive > 0
    ensures (forall moves :: Run(o, n, moves).g.active <= o.maxActive) <==> n <= 1
  {
    if n <= 1 {
      forall moves ensures Run(o, n, moves).g.active <= o.maxActive { AllocationBound(o, n, moves); }
    } else {
      var moves := BoundReached(o, n);
      assert Run(o, n, moves).g.active > o.maxActive;
    }
  }

  // ---- no deadlock ----

  predicate CanMove(o: Pool, s: State, t: nat)
    requires t < |s.threads|
  {
    match s.threads[t]
    case LockExpiry => s.g.mutex == None
    case LockFront => s.g.mutex == None
    case LockPut(_) => s.g.mutex == None
    case LockSpare => s.g.spareMutex == None
    case Destroy(_, _) => s.g.spareMutex == None
    case _ => true
  }

  /** A thread inside a call never waits for a thread that waits: in every reachable
      state, if some call is in flight, some thread inside a call can go on. */
  lemma NoDeadlock(o: Pool, n: nat, moves: seq<(nat, Choice)>, t: nat) returns (u: nat)
    requires t < n && t < |Run(o, n, moves).threads| && Run(o, n, moves).threads[t] != Outside
    ensures var s := Run(o, n, moves);
      && u < |s.threads| && s.threads[u] != Outside
      && exists c :: Act(o, s.g, u, s.threads[u], c).Go?
  {
    RunInv(o, n, moves);
    var s := Run(o, n, moves);
    if CanMove(o, s, t) {
      u := t;
    } else if s.threads[t].LockSpare? || s.threads[t].Destroy? {
      u := s.g.spareMutex.value;
    } else {
      u := s.g.mutex.value;
    }
    assert HoldsMutex(s.threads[u]) || HoldsSpareMutex(s.threads[u]) || u == t;
    var c := MoveChoice(s);
    assert Act(o, s.g, u, s.threads[u], c).Go?;
  }

  /** A choice no step refuses: memory is left, at an address not in use. */
  lemma MoveChoice(s: State) returns (c: Choice)
    ensures !c.put && c.flag && c.block !in s.g.blocks
  {
    var b := Unused(s.g.blocks);
    c := Choice(false, true, b);
  }

  lemma {:induction false} Unused(used: set<Block>) returns (b: Block)
    ensures b !in used && forall x :: x in used ==> x < b
    decreases |used|
  {
    if used == {} {
      b := 0;
    } else {
      var x :| x in used;
      var m := Unused(used - {x});
      b := if m > x then m else x + 1;
      assert forall y :: y in used ==> y in used - {x} || y == x;
    }
  }
}
