/** The connection pool in a sequential run with a clock that does not go back
    (connection_pool.h): what is reused, what is evicted, what is counted. */
module ConnectionPool {
  import opened IdleList

  class Clock {
    var now: nat

    constructor () { now := 0; }

    /** gettimeofday, in milliseconds: any time that is not earlier than the last. */
    method Read() returns (t: nat)
      modifies this
      ensures t == now >= old(now)
    {
      t :| t >= now;
      now := t;
    }
  }

  datatype Options = Options(maxIdle: int, maxActive: int, idleTimeout: int, maxLifeTime: int)

  // ---------- Where the blocks are ----------

  /** Idle items, spare blocks and held connections share no block, and together are
      all blocks there are. */
  ghost predicate Placed(idle: seq<ListItem>, spare: seq<ListItem>, held: set<ListItem>, blocks: set<ListItem>) {
    && Distinct(idle) && Distinct(spare) && held <= blocks
    && (forall i :: 0 <= i < |idle| ==> idle[i] in blocks && idle[i] !in held && idle[i] !in spare)
    && (forall i :: 0 <= i < |spare| ==> spare[i] in blocks && spare[i] !in held)
    && (forall b :: b in blocks ==> b in idle || b in spare || b in held)
    && |blocks| == |idle| + |spare| + |held|
  }

  /** A block moves from the idle list to the spare blocks. */
  lemma IdleToSpare(idle: seq<ListItem>, at: nat, spare: seq<ListItem>, held: set<ListItem>, blocks: set<ListItem>)
    requires at < |idle| && Placed(idle, spare, held, blocks)
    ensures Placed(idle[..at] + idle[at + 1..], [idle[at]] + spare, held, blocks)
  {
    var left := idle[..at] + idle[at + 1..];
    assert forall i :: 0 <= i < |left| ==> left[i] == idle[if i < at then i else i + 1];
    forall b | b in blocks && b in idle && b != idle[at] ensures b in left {
      var i :| 0 <= i < |idle| && idle[i] == b;
      assert left[if i < at then i else i - 1] == b;
    }
  }

  /** A block moves from the front of the idle list or of the spare blocks to a caller. */
  lemma FrontToHeld(idle: seq<ListItem>, spare: seq<ListItem>, held: set<ListItem>, blocks: set<ListItem>)
    requires Placed(idle, spare, held, blocks)
    ensures idle != [] ==> Placed(idle[1..], spare, held + {idle[0]}, blocks)
    ensures spare != [] ==> Placed(idle, spare[1..], held + {spare[0]}, blocks)
  {}

  /** A held block moves to the front of the idle list or of the spare blocks. */
  lemma HeldToFront(b: ListItem, idle: seq<ListItem>, spare: seq<ListItem>, held: set<ListItem>, blocks: set<ListItem>)
    requires Placed(idle, spare, held, blocks) && b in held
    ensures Placed([b] + idle, spare, held - {b}, blocks)
    ensures Placed(idle, [b] + spare, held - {b}, blocks)
  {}

  /** A fresh block goes to a caller. */
  lemma FreshToHeld(b: ListItem, idle: seq<ListItem>, spare: seq<ListItem>, held: set<ListItem>, blocks: set<ListItem>)
    requires Placed(idle, spare, held, blocks) && b !in blocks
    ensures Placed(idle, spare, held + {b}, blocks + {b})
  {}

  lemma IdleAreBlocks(idle: seq<ListItem>, spare: seq<ListItem>, held: set<ListItem>, blocks: set<ListItem>)
    requires Placed(idle, spare, held, blocks)
    ensures forall i :: 0 <= i < |idle| ==> idle[i] in blocks && idle[i] !in held
  {}

  lemma SpareAreNotIdle(idle: seq<ListItem>, spare: seq<ListItem>, held: set<ListItem>, blocks: set<ListItem>)
    requires Placed(idle, spare, held, blocks) && spare != []
    ensures spare[0] in blocks - held && spare[0] !in idle
  {}

  lemma HeldAreBlocks(idle: seq<ListItem>, spare: seq<ListItem>, held: set<ListItem>, blocks: set<ListItem>)
    requires Placed(idle, spare, held, blocks)
    ensures held <= blocks
  {}

  // ---------- The pool ----------

  class Pool {
    const options: Options
    const clock: Clock
    const idle: List
    var memPool: seq<ListItem>
    var activeCnt: int
    var overloadErrors: nat
    var mallocFails: nat
    // The connections handed out and not yet put back, and all blocks ever allocated.
    ghost var held: set<ListItem>
    ghost var blocks: set<ListItem>

    /** Returned too long ago to stay idle. */
    predicate Expired(activeTime: int, now: int) {
      options.idleTimeout > 0 && activeTime + options.idleTimeout < now
    }

    /** Made too long ago to be reused. */
    predicate OverAge(createTime: int, now: int) {
      options.maxLifeTime > 0 && now - createTime >= options.maxLifeTime
    }

    /** From front to back the idle items were returned ever longer ago, and no block
        carries a time in the future. */
    ghost predicate Sorted()
      reads `blocks, idle`items, idle.items`activeTime, clock, blocks`activeTime, blocks`createTime
    {
      && (forall i, j :: 0 <= i < j < |idle.items| ==> idle.items[i].activeTime >= idle.items[j].activeTime)
      && (forall b :: b in blocks ==> b.activeTime <= clock.now && b.createTime <= clock.now)
    }

    ghost predicate Valid()
      reads this, idle, idle.items, clock, blocks
    {
      && idle.Valid() && Placed(idle.items, memPool, held, blocks) && Sorted()
      && activeCnt == |idle.items| + |held|
      && (options.maxActive > 0 ==> activeCnt <= options.maxActive)
      && (options.maxIdle > 0 ==> |idle.items| <= options.maxIdle)
    }

    constructor (options: Options, clock: Clock)
      ensures Valid() && idle.items == [] && held == {} && memPool == [] && fresh(idle)
      ensures this.options == options && this.clock == clock
    {
      this.options, this.clock := options, clock;
      idle := new List();
      memPool, activeCnt, overloadErrors, mallocFails, held, blocks := [], 0, 0, 0, {}, {};
    }

    /** Gc: the connection ends and its block becomes a spare one. */
    method Gc(item: ListItem)
      modifies `memPool, `activeCnt
      ensures memPool == [item] + old(memPool) && activeCnt == old(activeCnt) - 1
    {
      memPool := [item] + memPool;
      activeCnt := activeCnt - 1;
    }

    /** The item at the back leaves the list. No other item was returned before it. */
    method PopBack() returns (item: ListItem)
      requires idle.Valid() && Sorted() && idle.items != []
      modifies idle, idle.items`next, idle.items`prev
      ensures idle.Valid() && Sorted() && item == old(idle.items)[|old(idle.items)| - 1]
      ensures idle.items == old(idle.items)[..|old(idle.items)| - 1]
      ensures forall i :: 0 <= i < |idle.items| ==> idle.items[i].activeTime >= item.activeTime
    {
      hide List.Valid;
      idle.Ends();
      item := idle.back;
      idle.PopBack();
    }

    /** The item at the back, the least recently returned one, becomes a spare block. */
    method EvictBack()
      requires idle.Valid() && Sorted() && Placed(idle.items, memPool, held, blocks) && idle.items != []
      requires activeCnt == |idle.items| + |held| && (options.maxActive > 0 ==> activeCnt <= options.maxActive)
      requires options.maxIdle > 0 ==> |idle.items| <= options.maxIdle + 1
      modifies `memPool, `activeCnt, idle, idle.items`next, idle.items`prev
      ensures Valid() && idle.items == old(idle.items)[..|old(idle.items)| - 1]
      ensures var evicted := old(idle.items)[|old(idle.items)| - 1];
        && memPool == [evicted] + old(memPool)
        && forall i :: 0 <= i < |idle.items| ==> idle.items[i].activeTime >= evicted.activeTime
    {
      hide Placed, List.Valid, Sorted;
      ghost var was := idle.items;
      var item := PopBack();
      Gc(item);
      IdleToSpare(was, |was| - 1, old(memPool), held, blocks);
      assert was[..|was| - 1] + was[|was|..] == idle.items;
    }

    /** The test of the expiry loop: the item at the back, against the clock. When it has
        not expired, nothing in front of it has. */
    method BackExpired() returns (expired: bool)
      requires Valid() && idle.items != []
      modifies clock
      ensures Valid() && clock.now >= old(clock.now)
      ensures expired ==> Expired(idle.items[|idle.items| - 1].activeTime, clock.now)
      ensures expired <==> 0 < options.idleTimeout < clock.now - idle.items[|idle.items| - 1].activeTime
      ensures !expired ==> forall j :: 0 <= j < |idle.items| ==> !Expired(idle.items[j].activeTime, clock.now)
    {
      hide Placed, List.Valid;
      idle.Ends();
      var now := clock.Read();
      expired := options.idleTimeout > 0 && idle.back.activeTime + options.idleTimeout < now;
    }

    /** The expiry loop leaves exactly the items that have not expired. */
    method EvictExpired()
      requires Valid()
      modifies `memPool, `activeCnt, idle, clock, blocks`next, blocks`prev
      ensures Valid() && clock.now >= old(clock.now)
      ensures |idle.items| <= |old(idle.items)| && idle.items == old(idle.items)[..|idle.items|]
      ensures forall j :: |idle.items| <= j < |old(idle.items)| ==> Expired(old(idle.items)[j].activeTime, clock.now)
      ensures forall j :: 0 <= j < |idle.items| ==> !Expired(idle.items[j].activeTime, clock.now)
      ensures if options.idleTimeout <= 0 then idle.items == old(idle.items) else
        && (forall j :: |idle.items| <= j < |old(idle.items)| ==>
              old(idle.items[j].activeTime) + options.idleTimeout < clock.now)
        && (forall j :: 0 <= j < |idle.items| ==> idle.items[j].activeTime + options.idleTimeout >= clock.now)
      ensures |memPool| == |old(memPool)| + |old(idle.items)| - |idle.items|
    {
      hide Placed, Sorted, List.Valid;
      if options.idleTimeout > 0 {
        idle.Ends();
        var item := idle.back;
        while item != null
          invariant Valid() && clock.now >= old(clock.now)
          invariant (item == null) == (idle.items == [])
          invariant |idle.items| <= |old(idle.items)| && idle.items == old(idle.items)[..|idle.items|]
          invariant forall j :: |idle.items| <= j < |old(idle.items)| ==> Expired(old(idle.items[j].activeTime), clock.now)
          invariant |memPool| == |old(memPool)| + |old(idle.items)| - |idle.items|
          decreases |idle.items|
        {
          IdleAreBlocks(idle.items, memPool, held, blocks);
          var expired := BackExpired();
          if !expired { break; }
          EvictBack();
          idle.Ends();
          item := idle.back;
        }
      }
    }

    /** The test of the life time, which reads the clock only when there is a limit. */
    method YoungEnough(item: ListItem) returns (ok: bool)
      requires Sorted()
      modifies clock
      ensures Sorted() && clock.now >= old(clock.now)
      ensures ok <==> !OverAge(item.createTime, clock.now)
      ensures ok <==> options.maxLifeTime <= 0 || clock.now - item.createTime < options.maxLifeTime
    {
      ok := true;
      if options.maxLifeTime > 0 {
        var now := clock.Read();
        ok := now - item.createTime < options.maxLifeTime;
      }
    }

    /** The front item leaves the list, which stays in order. */
    method PopFront() returns (item: ListItem)
      requires idle.Valid() && Sorted() && idle.items != []
      modifies idle, idle.items`next, idle.items`prev
      ensures idle.Valid() && Sorted() && item == old(idle.items)[0] && idle.items == old(idle.items)[1..]
    {
      hide List.Valid;
      idle.Ends();
      item := idle.front;
      idle.PopFront();
    }

    /** One round of the reuse loop: the front item goes to the caller, or to the spare
        blocks when it has lived too long. */
    method TryFront() returns (item: ListItem, ok: bool)
      requires Valid() && idle.items != []
      modifies `memPool, `activeCnt, `held, idle, clock, blocks`next, blocks`prev
      ensures Valid() && clock.now >= old(clock.now)
      ensures item == old(idle.items)[0] && item !in old(held) && idle.items == old(idle.items)[1..]
      ensures ok <==> !OverAge(item.createTime, clock.now)
      ensures held == if ok then old(held) + {item} else old(held)
      ensures memPool == if ok then old(memPool) else [item] + old(memPool)
    {
      hide Placed, List.Valid, Sorted, OverAge;
      ghost var was := idle.items;
      IdleAreBlocks(was, memPool, held, blocks);
      item := PopFront();
      ok := YoungEnough(item);
      if ok {
        FrontToHeld(was, memPool, held, blocks);
        assert |held + {item}| == |held| + 1;
        held := held + {item};
      } else {
        IdleToSpare(was, 0, memPool, held, blocks);
        assert was[..0] + was[1..] == idle.items;
        Gc(item);
      }
      assert Placed(idle.items, memPool, held, blocks) && activeCnt == |idle.items| + |held|;
    }

    lemma FrontTells()
      requires Valid()
      ensures (idle.front == null) == (idle.items == [])
      ensures forall i :: 0 <= i < |idle.items| ==> idle.items[i] in blocks && idle.items[i] !in held
    {
      hide Placed, List.Valid, Sorted;
      idle.Ends();
      IdleAreBlocks(idle.items, memPool, held, blocks);
    }

    /** The reuse loop hands out the first item from the front that is young enough. */
    method ReuseFront() returns (conn: ListItem?)
      requires Valid()
      modifies `memPool, `activeCnt, `held, idle, clock, blocks`next, blocks`prev
      ensures Valid() && clock.now >= old(clock.now)
      ensures |idle.items| <= |old(idle.items)| && idle.items == old(idle.items)[|old(idle.items)| - |idle.items|..]
      ensures conn == null ==>
        && idle.items == [] && held == old(held)
        && forall j :: 0 <= j < |old(idle.items)| ==> OverAge(old(idle.items[j].createTime), clock.now)
      ensures conn != null ==>
        var k := |old(idle.items)| - |idle.items| - 1;
        && k >= 0 && conn == old(idle.items)[k] && conn !in old(held) && held == old(held) + {conn}
        && !OverAge(conn.createTime, clock.now) && forall j :: 0 <= j < k ==> OverAge(old(idle.items[j].createTime), clock.now)
      ensures |memPool| == |old(memPool)| + |old(idle.items)| - |idle.items| - (if conn == null then 0 else 1)
    {
      hide Valid;
      ghost var was, gone := idle.items, 0;
      FrontTells();
      while idle.front != null
        invariant Valid() && clock.now >= old(clock.now) && held == old(held)
        invariant (idle.front == null) == (idle.items == [])
        invariant 0 <= gone <= |was| && idle.items == was[gone..]
        invariant forall j :: 0 <= j < gone ==> OverAge(was[j].createTime, clock.now)
        invariant |memPool| == |old(memPool)| + gone
        decreases |idle.items|
      {
        FrontTells();
        var item, ok := TryFront();
        gone := gone + 1;
        if ok {
          assert gone == |was| - |idle.items|;
          return item;
        }
        FrontTells();
      }
      conn := null;
    }

    /** The block for a new connection: a spare one, or a fresh one when there is none. */
    method TakeBlock() returns (item: ListItem)
      requires Valid()
      modifies `memPool, `blocks
      ensures Sorted()
      ensures item in blocks - held && item !in idle.items && Placed(idle.items, memPool, held + {item}, blocks)
      ensures if old(memPool) == []
        then memPool == [] && fresh(item) && blocks == old(blocks) + {item} && item !in old(blocks)
        else item == old(memPool)[0] && memPool == old(memPool)[1..] && blocks == old(blocks)
    {
      hide List.Valid, Placed;
      IdleAreBlocks(idle.items, memPool, held, blocks);
      if memPool != [] {
        FrontToHeld(idle.items, memPool, held, blocks);
        SpareAreNotIdle(idle.items, memPool, held, blocks);
        item := memPool[0];
        memPool := memPool[1..];
      } else {
        item := new ListItem(0);
        HeldAreBlocks(idle.items, memPool, held, blocks);
        FreshToHeld(item, idle.items, memPool, held, blocks);
        blocks := blocks + {item};
      }
    }

    /** Placement new: both times are read afresh and the links are empty. */
    method Construct(item: ListItem)
      requires Sorted() && item in blocks && item !in idle.items
      modifies item, clock
      ensures Sorted() && item.activeTime >= old(clock.now) && item.createTime >= old(clock.now)
      ensures item.next == null && item.prev == null && clock.now >= old(clock.now)
    {
      item.activeTime := clock.Read();
      item.createTime := clock.Read();
      item.next, item.prev := null, null;
    }

    /** The connection is handed out, or becomes a spare block again when its
        initialisation has failed. */
    method HandOut(item: ListItem, initOk: bool) returns (conn: ListItem?)
      requires idle.Valid() && Sorted() && Placed(idle.items, memPool, held + {item}, blocks) && item !in held
      requires activeCnt == |idle.items| + |held| + 1 && (options.maxActive > 0 ==> activeCnt <= options.maxActive)
      requires options.maxIdle > 0 ==> |idle.items| <= options.maxIdle
      modifies `memPool, `activeCnt, `held
      ensures Valid() && conn == if initOk then item else null
      ensures held == if initOk then old(held) + {item} else old(held)
      ensures memPool == if initOk then old(memPool) else [item] + old(memPool)
    {
      hide Placed, List.Valid, Sorted;
      assert |held + {item}| == |held| + 1;
      if initOk {
        held := held + {item};
        conn := item;
      } else {
        HeldToFront(item, idle.items, memPool, held + {item}, blocks);
        assert held + {item} - {item} == held;
        Gc(item);
        conn := null;
      }
    }

    /** A new connection, in a spare block if there is one; none when there is no memory for
        a fresh block. */
    method GetNewInstance(mallocOk: bool, initOk: bool) returns (conn: ListItem?)
      requires Valid() && (options.maxActive > 0 ==> activeCnt < options.maxActive)
      modifies `memPool, `activeCnt, `held, `blocks, `mallocFails, clock, blocks
      ensures Valid() && clock.now >= old(clock.now)
      ensures conn == null <==> !initOk || (old(memPool) == [] && !mallocOk)
      ensures mallocFails == old(mallocFails) + if old(memPool) == [] && !mallocOk then 1 else 0
      ensures held == if conn == null then old(held) else old(held) + {conn}
      ensures conn != null ==> conn !in old(held) && conn !in idle.items && conn.createTime >= old(clock.now)
      ensures old(memPool) == [] && !mallocOk ==> blocks == old(blocks) && memPool == []
      ensures old(memPool) == [] && mallocOk ==> exists b :: b !in old(blocks) && fresh(b) && blocks == old(blocks) + {b}
      ensures old(memPool) != [] ==> blocks == old(blocks)
      ensures old(memPool) != [] && conn != null ==> conn == old(memPool)[0] && memPool == old(memPool)[1..]
    {
      hide Placed, List.Valid, Sorted;
      if memPool == [] && !mallocOk {
        mallocFails := mallocFails + 1;
        return null;
      }
      var item := TakeBlock();
      activeCnt := activeCnt + 1;
      Construct(item);
      conn := HandOut(item, initOk);
    }

    /** What Get does before it makes a new connection. The items that stay idle are those
        from `first` up to `last`. */
    method FromIdle() returns (conn: ListItem?, ghost first: nat, ghost last: nat)
      requires Valid()
      modifies `memPool, `activeCnt, `held, idle, clock, blocks`next, blocks`prev
      ensures Valid() && clock.now >= old(clock.now)
      ensures first <= last <= |old(idle.items)| && idle.items == old(idle.items)[first..last]
      ensures held == if conn == null then old(held) else old(held) + {conn}
      ensures conn != null ==> first > 0 && conn == old(idle.items)[first - 1] && conn !in old(held)
      ensures conn == null ==> idle.items == [] && |memPool| == |old(memPool)| + |old(idle.items)|
      ensures forall j :: last <= j < |old(idle.items)| ==> Expired(old(idle.items[j].activeTime), clock.now)
      ensures forall j :: 0 <= j < last ==> !Expired(old(idle.items[j].activeTime), old(clock.now))
      ensures forall j :: 0 <= j < first - (if conn == null then 0 else 1) ==> OverAge(old(idle.items[j].createTime), clock.now)
      ensures conn != null ==> !OverAge(old(idle.items[first - 1].createTime), clock.now)
      ensures if options.idleTimeout <= 0 then last == |old(idle.items)| else
        && (forall j :: last <= j < |old(idle.items)| ==>
              old(idle.items[j].activeTime) + options.idleTimeout < clock.now)
        && (forall j :: 0 <= j < last ==> old(idle.items[j].activeTime) + options.idleTimeout >= old(clock.now))
      ensures if options.maxLifeTime <= 0 then last > 0 ==> conn != null && first == 1 else
        && (forall j :: 0 <= j < first - (if conn == null then 0 else 1) ==>
              clock.now - old(idle.items[j].createTime) >= options.maxLifeTime)
        && (conn != null ==> clock.now - old(idle.items[first - 1].createTime) < options.maxLifeTime)
    {
      hide List.Valid, Placed, Sorted;
      EvictExpired();
      last := |idle.items|;
      conn := ReuseFront();
      first := last - |idle.items|;
      ghost var gone := first - if conn == null then 0 else 1;
      if gone > 0 { assert OverAge(old(idle.items[0].createTime), clock.now); }
    }

    /** A connection for the caller. The limit is tested first, whatever is idle. Then the
        expired items leave from the back, and the first item from the front that is
        young enough is reused; only when none is left is there a new connection, and
        only when nothing was idle or spare is memory allocated. The items that stay idle
        are those from `first` up to `last`. */
    method Get(mallocOk: bool, initOk: bool) returns (conn: ListItem?, ghost reused: bool, ghost first: nat, ghost last: nat)
      requires Valid()
      modifies `memPool, `activeCnt, `overloadErrors, `mallocFails, `held, `blocks, idle, clock, blocks
      ensures Valid() && clock.now >= old(clock.now)
      ensures held == if conn == null then old(held) else old(held) + {conn}
      ensures conn != null ==> conn !in old(held)
      ensures old(blocks) <= blocks && fresh(blocks - old(blocks))
      ensures first <= last <= |old(idle.items)| && idle.items == old(idle.items)[first..last]
      ensures options.maxActive > 0 && old(activeCnt) >= options.maxActive ==>
        && conn == null && overloadErrors == old(overloadErrors) + 1 && idle.items == old(idle.items)
        && memPool == old(memPool) && activeCnt == old(activeCnt) && blocks == old(blocks)
      ensures !(options.maxActive > 0 && old(activeCnt) >= options.maxActive) ==>
        && overloadErrors == old(overloadErrors)
        && (forall j :: last <= j < |old(idle.items)| ==> Expired(old(idle.items[j].activeTime), clock.now))
        && (forall j :: 0 <= j < last ==> !Expired(old(idle.items[j].activeTime), old(clock.now)))
        && (forall j :: 0 <= j < first - (if reused then 1 else 0) ==> OverAge(old(idle.items[j].createTime), clock.now))
        && (reused ==> first > 0 && conn == old(idle.items)[first - 1])
        && (reused ==> !OverAge(old(idle.items[first - 1].createTime), clock.now))
        && (!reused ==> idle.items == [])
        && (!reused ==> (conn == null <==> !initOk || (old(idle.items) == [] && old(memPool) == [] && !mallocOk)))
        && (!reused && conn != null ==> conn.createTime >= old(clock.now))
        && (reused || old(idle.items) != [] || old(memPool) != [] ==> blocks == old(blocks))
      ensures !(options.maxActive > 0 && old(activeCnt) >= options.maxActive) ==>
        if options.idleTimeout <= 0 then last == |old(idle.items)| else
        && (forall j :: last <= j < |old(idle.items)| ==>
              old(idle.items[j].activeTime) + options.idleTimeout < clock.now)
        && (forall j :: 0 <= j < last ==> old(idle.items[j].activeTime) + options.idleTimeout >= old(clock.now))
      ensures !(options.maxActive > 0 && old(activeCnt) >= options.maxActive) ==>
        if options.maxLifeTime <= 0 then last > 0 ==> reused && first == 1 else
        && (forall j :: 0 <= j < first - (if reused then 1 else 0) ==>
              clock.now - old(idle.items[j].createTime) >= options.maxLifeTime)
        && (reused ==> clock.now - old(idle.items[first - 1].createTime) < options.maxLifeTime)
    {
      hide List.Valid, Placed, Sorted;
      first, last, reused := 0, |idle.items|, false;
      if options.maxActive > 0 && activeCnt >= options.maxActive {
        overloadErrors := overloadErrors + 1;
        return null, reused, first, last;
      }
      conn, first, last := FromIdle();
      reused := conn != null;
      if conn == null {
        conn := GetNewInstance(mallocOk, initOk);
      }
    }

    method Touch(conn: ListItem)
      requires Sorted() && conn !in idle.items && conn in blocks
      modifies clock, conn`activeTime
      ensures Sorted() && clock.now >= old(clock.now) && conn.activeTime == clock.now
    {
      conn.activeTime := clock.Read();
    }

    /** An item that was active just now goes to the front of the list, which stays in order. */
    method PushFront(item: ListItem)
      requires idle.Valid() && Sorted() && item !in idle.items && item.activeTime == clock.now
      requires forall i :: 0 <= i < |idle.items| ==> idle.items[i] in blocks
      modifies idle, item`next, item`prev, idle.items`prev
      ensures idle.Valid() && Sorted() && idle.items == [item] + old(idle.items)
    {
      hide List.Valid;
      idle.PushFront(item);
    }

    /** The returned connection carries the time of its return and goes to the front. */
    method Return(conn: ListItem)
      requires Valid() && conn in held
      modifies `held, idle, clock, conn, idle.items`prev
      ensures idle.Valid() && Sorted() && Placed(idle.items, memPool, held, blocks) && clock.now >= old(clock.now)
      ensures activeCnt == |idle.items| + |held| && conn.activeTime == clock.now
      ensures idle.items == [conn] + old(idle.items) && held == old(held) - {conn}
    {
      hide List.Valid, Placed, Sorted;
      IdleAreBlocks(idle.items, memPool, held, blocks);
      HeldAreBlocks(idle.items, memPool, held, blocks);
      HeldToFront(conn, idle.items, memPool, held, blocks);
      Touch(conn);
      PushFront(conn);
      held := held - {conn};
    }

    /** A broken connection ends. A good one becomes idle, and when that makes one too
        many, the least recently returned one ends. */
    method Put(conn: ListItem, isOk: bool)
      requires Valid() && conn in held
      modifies `memPool, `activeCnt, `held, idle, clock, blocks
      ensures Valid() && clock.now >= old(clock.now)
      ensures held == old(held) - {conn}
      ensures !isOk ==> idle.items == old(idle.items) && memPool == [conn] + old(memPool)
      ensures isOk ==> conn.activeTime == clock.now && idle.front == conn
      ensures isOk && !(options.maxIdle > 0 && |old(idle.items)| == options.maxIdle) ==>
        idle.items == [conn] + old(idle.items) && memPool == old(memPool)
      ensures isOk && options.maxIdle > 0 && |old(idle.items)| == options.maxIdle ==>
        var evicted := old(idle.items)[options.maxIdle - 1];
        && idle.items == [conn] + old(idle.items)[..options.maxIdle - 1] && memPool == [evicted] + old(memPool)
        && forall i :: 0 <= i < |idle.items| ==> idle.items[i].activeTime >= evicted.activeTime
    {
      hide List.Valid, Placed, Sorted;
      HeldAreBlocks(idle.items, memPool, held, blocks);
      IdleAreBlocks(idle.items, memPool, held, blocks);
      if !isOk {
        HeldToFront(conn, idle.items, memPool, held, blocks);
        held := held - {conn};
        Gc(conn);
        return;
      }
      Return(conn);
      IdleAreBlocks(idle.items, memPool, held, blocks);
      idle.Ends();
      if options.maxIdle > 0 && idle.count > options.maxIdle {
        EvictBack();
        idle.Ends();
      }
    }
  }
}
