/** The asynchronous context (async.c): a queue of callbacks, two dictionaries of
    subscriptions, and flags that decide when it may be torn down, while the callbacks it
    runs issue commands, disconnect or free it. */
module Async {
  import opened Bytes
  import opened Resp
  import opened Callbacks
  import opened AsyncHistory
  import opened Subscriptions
  import opened Dispatching
  import opened Commands
  import opened Numbers

  /** What a user may do with a context. */
  datatype Action =
    | Command(fn: nat, privdata: nat, argv: seq<Bytes>)
    | Disconnect
    | Free

  /** Commands as the formatting functions make them. */
  ghost predicate Usable(action: Action) {
    action.Command? ==> action.argv != [] && |Wire(action.argv)| <= INT_MAX
  }

  type UserAction = action: Action | Usable(action) witness Disconnect

  // What the first event says of the connection, what a read brings: complete replies, and
  // whether the stream is broken after them.
  datatype Connect = InProgress | ConnectFailed | Established

  datatype Arrival = ReadFailed | Data(replies: seq<Reply>, broken: bool)

  datatype Event =
    | Readable(connect: Connect, arrival: Arrival)
    | Writable(connect: Connect, taken: Option<nat>)
    | Call(action: UserAction)

  /** Whether the connection is there after an event. */
  predicate Connects(connected: bool, event: Event) {
    connected || (!event.Call? && event.connect.Established?)
  }

  /** The replies that a run of events brings to a connection that is there. */
  function Brought(connected: bool, events: seq<Event>): seq<Reply>
    decreases |events|
  {
    if events == [] then []
    else
      var now := Connects(connected, events[0]);
      (if now && events[0].Readable? && events[0].arrival.Data? then events[0].arrival.replies else [])
      + Brought(now, events[1..])
  }

  /** The command that a call of the user is, if it is one, and its callback. */
  function Order(event: Event): seq<seq<Bytes>> {
    if event.Call? && event.action.Command? then [event.action.argv] else []
  }

  function Caller(event: Event): seq<Callback> {
    if event.Call? && event.action.Command? then [Callback(event.action.fn, event.action.privdata, 1)] else []
  }

  function Orders(events: seq<Event>): seq<seq<Bytes>> {
    if events == [] then [] else Orders(events[..|events| - 1]) + Order(events[|events| - 1])
  }

  function Callers(events: seq<Event>): seq<Callback> {
    if events == [] then [] else Callers(events[..|events| - 1]) + Caller(events[|events| - 1])
  }

  /** A call of the user is a command that ends no subscription. */
  predicate Plain(event: Event) {
    event.Call? ==> event.action.Command? && !KindOf(event.action.argv).Unsubscribing?
  }

  class AsyncContext {
    var connected: bool
    var disconnecting: bool
    var freeing: bool
    var inCallback: bool
    var subscribed: bool
    var monitoring: bool
    var err: bool
    // Set by an assertion that fails: the program ends there.
    var aborted: bool
    // The replies that the reader holds, and whether a protocol error follows them.
    var incoming: seq<Reply>
    var broken: bool
    var obuf: Bytes
    const replies: CallbackList
    const invalid: CallbackList
    var channels: Table
    var patterns: Table
    // Whether the teardown has ended, and the status that onDisconnect was told, if any.
    var freed: bool
    var farewell: Option<bool>
    // Commands accepted, and bytes the socket has taken.
    ghost var issued: seq<seq<Bytes>>
    ghost var sent: Bytes
    ghost var h: History
    ghost var ledger: Ledger
    // How often __redisAsyncFree has started, and whether an error reply has come that
    // nobody waited for.
    ghost var frees: nat
    ghost var orphaned: bool
    // Whether the callbacks of the user leave the context alone.
    const quiet: bool

    /** Whatever has come into the queues was allocated in the meantime; commands accepted and
        bytes sent stay so. */
    twostate predicate Grown()
      reads replies, invalid, `sent, `issued
    {
      && old(sent) <= sent && old(issued) <= issued
      && old(replies.repr) <= replies.repr && fresh(replies.repr - old(replies.repr))
      && old(invalid.repr) <= invalid.repr && fresh(invalid.repr - old(invalid.repr))
    }

    ghost function Tables(): Tables
      reads `channels, `patterns
    {
      Subscriptions.Tables(channels, patterns)
    }

    /** The queues, and that they share nothing. */
    ghost predicate QueuesOk()
      reads replies, invalid, replies.repr, invalid.repr
    {
      replies != invalid && replies.Valid() && invalid.Valid()
    }

    ghost predicate SubscriptionsOk()
      reads `channels, `patterns, `subscribed, `monitoring, `h, `ledger, invalid`contents
    {
      && AllCovered(Tables(), ledger)
      && (channels != map[] || patterns != map[] ==> subscribed)
      && (subscribed || monitoring || invalid.contents != [] ==> h.special)
    }

    ghost predicate FlagsOk()
      reads `frees, `freed, `disconnecting, `freeing, `h, `aborted, `orphaned, replies`contents
    {
      && (frees > 0 ==> disconnecting || freeing)
      && (frees == 0 ==> !freed && |h.answers| == |h.outcomes|)
      && frees <= 1 && (freed ==> replies.contents == [])
      && (!h.special && !aborted && (orphaned ==> replies.contents != []) ==> h.answers == h.arrived)
    }

    /** What has been sent and what still waits to be are the accepted commands, in order. */
    ghost predicate OutputOk()
      reads `sent, `obuf, `issued
    {
      Carriable(issued) && sent + obuf == WireAll(issued)
    }

    /** Without subscriptions and monitor mode each accepted command has a callback. */
    ghost predicate Paired()
      reads `issued, `h
    {
      !h.special ==> |h.accepted| == |issued|
    }

    ghost predicate Sound()
      reads this, replies, invalid, replies.repr, invalid.repr
    {
      QueuesOk() && SubscriptionsOk() && FlagsOk() && h.Ok(replies.contents)
    }

    ghost predicate Valid()
      reads this, replies, invalid, replies.repr, invalid.repr
    {
      Sound() && OutputOk() && Paired()
    }

    /** What decides where the next reply goes. */
    ghost function ModeOf(last: Callback): Mode
      reads `channels, `patterns, `ledger, `subscribed, `monitoring, replies`contents, invalid`contents
    {
      Mode(replies.contents, invalid.contents, Tables(), ledger, subscribed, monitoring, last)
    }

    /** Once set, this keeps new commands out. */
    predicate Closing()
      reads `disconnecting, `freeing
    {
      disconnecting || freeing
    }

    /** Nothing has ended it: neither a teardown nor a failed assertion. */
    ghost predicate Running()
      reads `disconnecting, `freeing, `orphaned, `aborted, `freed
    {
      !freed && !aborted && (orphaned ==> Closing())
    }

    constructor (quiet: bool)
      ensures fresh(replies) && fresh(invalid) && fresh(replies.repr) && fresh(invalid.repr)
      ensures Idle() && !Closing() && this.quiet == quiet && !connected && !err
      ensures ModeOf(NO_CALLBACK)
        == Mode([], [], Subscriptions.Tables(map[], map[]), Ledger(map[], map[], true), false, false, NO_CALLBACK)
      ensures h == History([], [], [], [], [], false) && ledger == Ledger(map[], map[], true) && issued == []
    {
      this.quiet, orphaned := quiet, false;
      connected, disconnecting, freeing, inCallback, subscribed, monitoring := false, false, false, false, false, false;
      err, aborted, incoming, broken := false, false, [], false;
      obuf, sent, issued := [], [], [];
      replies := new CallbackList();
      invalid := new CallbackList();
      channels, patterns, farewell := map[], map[], None;
      h, ledger, frees, freed := History([], [], [], [], [], false), Ledger(map[], map[], true), 0, false;
      new;
      hide CallbackList.Valid, AllCovered, WireAll, Carriable;
      NothingOwed();
      NothingIssued();
    }

    static lemma NothingIssued()
      ensures Carriable([]) && WireAll([]) == []
    {}

    static lemma NothingOwed()
      ensures AllCovered(Subscriptions.Tables(map[], map[]), Ledger(map[], map[], true))
    {}

    // ---------- Commands ----------

    method SubscribeOne(cb0: Callback, pattern: bool, sname: Bytes) returns (cb: Callback)
      requires AllCovered(Tables(), ledger) && (ledger.honest ==> cb0.pendingSubs >= 1)
      modifies `channels, `patterns, `ledger
      ensures AllCovered(Tables(), ledger) && (ledger.honest ==> cb.pendingSubs >= 1)
      ensures ledger == old(ledger).Send(Name(pattern, sname))
      ensures Carried(Tables().Get(pattern), cb) == Carried(old(Tables()).Get(pattern), cb0).Next(sname)
      ensures Tables().Get(!pattern) == old(Tables()).Get(!pattern)
    {
      hide AllCovered;
      cb := cb0;
      var cbdict := if pattern then patterns else channels;
      if sname in cbdict {
        cb := cb.(pendingSubs := cbdict[sname].pendingSubs + 1);
      }
      SendCovered(Tables(), ledger, Name(pattern, sname), cb);
      if pattern {
        patterns := patterns[sname := cb];
      } else {
        channels := channels[sname := cb];
      }
      ledger := ledger.Send(Name(pattern, sname));
    }

    /** One entry for each name, with the callback of the command. The counter carries over
        from one name to the next. */
    method Subscribe(cb0: Callback, pattern: bool, names: seq<Bytes>)
      requires AllCovered(Tables(), ledger) && cb0.pendingSubs == 1
      modifies `channels, `patterns, `ledger
      ensures AllCovered(Tables(), ledger) && ledger == old(ledger).SendAll(pattern, names)
      ensures Tables().Get(pattern) == Carry(old(Tables()).Get(pattern), cb0, names).table
      ensures Tables().Get(!pattern) == old(Tables()).Get(!pattern)
    {
      hide AllCovered;
      var cb := cb0;
      ghost var was := Tables();
      for i := 0 to |names|
        invariant AllCovered(Tables(), ledger) && (ledger.honest ==> cb.pendingSubs >= 1)
        invariant ledger == old(ledger).SendAll(pattern, names[..i])
        invariant Carried(Tables().Get(pattern), cb) == Carry(was.Get(pattern), cb0, names[..i])
        invariant Tables().Get(!pattern) == was.Get(!pattern)
      {
        assert names[..i + 1] == names[..i] + [names[i]];
        cb := SubscribeOne(cb, pattern, names[i]);
      }
      assert names[..|names|] == names;
    }

    /** A callback waits for its reply in the queue. */
    method Enqueue(cb: Callback)
      requires Sound() && frees == 0 && !orphaned
      modifies `h, replies, replies.repr
      ensures Sound() && Grown() && h == old(h).Accept(cb) && replies.contents == old(replies.contents) + [cb]
      ensures monitoring ==> h.special
    {
      assert replies.repr !! invalid.repr;
      h.AcceptOk(replies.contents, cb);
      replies.Push(cb);
      h := h.Accept(cb);
    }

    /** The callback of a command issued while subscribed. */
    method EnqueueInvalid(cb: Callback)
      requires Sound() && subscribed
      modifies invalid, invalid.repr
      ensures Sound() && Grown() && invalid.contents == old(invalid.contents) + [cb]
    {
      assert replies.repr !! invalid.repr;
      invalid.Push(cb);
    }

    /** What __redisAsyncCommand does with the callback. */
    method Register(cb: Callback, kind: Kind) returns (ok: bool)
      requires Sound() && !Closing() && !orphaned && cb.pendingSubs == 1
      modifies `h, `ledger, `subscribed, `monitoring, `channels, `patterns, replies, invalid, replies.repr, invalid.repr
      ensures Sound() && Grown()
      ensures ok <==> kind.Unsubscribing? ==> old(subscribed)
      ensures ModeOf(NO_CALLBACK) == Asked(old(ModeOf(NO_CALLBACK)), kind, cb)
      ensures h == Recorded(old(h), kind, cb, subscribed)
      ensures kind.Subscribing? ==>
        subscribed && replies.contents == old(replies.contents) && invalid.contents == old(invalid.contents)
      ensures !kind.Subscribing? ==> Tables() == old(Tables()) && ledger == old(ledger) && subscribed == old(subscribed)
      ensures kind.Monitoring? || (kind.Other? && !subscribed) ==> replies.contents == old(replies.contents) + [cb]
      ensures kind.Other? && subscribed ==> invalid.contents == old(invalid.contents) + [cb]
      ensures monitoring == (old(monitoring) || kind.Monitoring?)
      ensures !h.special ==> |h.accepted| == |old(h).accepted| + if ok then 1 else 0
    {
      hide OutputOk, CallbackList.Valid, AllCovered;
      ok := true;
      match kind
      case Subscribing(pattern, names) =>
        subscribed, h := true, h.(special := true);
        Subscribe(cb, pattern, names);
      case Unsubscribing =>
        ok := subscribed;
      case Monitoring =>
        monitoring, h := true, h.(special := true);
        Enqueue(cb);
      case Other =>
        if subscribed { EnqueueInvalid(cb); } else { Enqueue(cb); }
    }

    /** __redisAsyncCommand, of a formatted argument vector: refused when the context is
        closing; otherwise the callback is registered and the bytes are queued. */
    method Command(fn: nat, privdata: nat, argv: seq<Bytes>) returns (ok: bool)
      requires Valid() && (orphaned ==> Closing()) && argv != [] && |Wire(argv)| <= INT_MAX
      modifies `h, `ledger, `subscribed, `monitoring, `channels, `patterns, `obuf, `issued
      modifies replies, invalid, replies.repr, invalid.repr
      ensures Valid() && Grown()
      ensures ok <==> !Closing() && (KindOf(argv).Unsubscribing? ==> old(subscribed))
      ensures obuf == if ok then old(obuf) + Wire(argv) else old(obuf)
      ensures issued == if ok then old(issued) + [argv] else old(issued)
      ensures ModeOf(NO_CALLBACK)
        == if ok then Asked(old(ModeOf(NO_CALLBACK)), KindOf(argv), Callback(fn, privdata, 1)) else old(ModeOf(NO_CALLBACK))
      ensures h == if ok then Recorded(old(h), KindOf(argv), Callback(fn, privdata, 1), old(subscribed)) else old(h)
      ensures ok && KindOf(argv).Subscribing? ==> subscribed
      ensures ok && (KindOf(argv).Monitoring? || (KindOf(argv).Other? && !old(subscribed))) ==>
        replies.contents == old(replies.contents) + [Callback(fn, privdata, 1)]
      ensures ok && KindOf(argv).Other? && old(subscribed) ==>
        invalid.contents == old(invalid.contents) + [Callback(fn, privdata, 1)]
      ensures monitoring == (old(monitoring) || (ok && KindOf(argv).Monitoring?))
    {
      hide OutputOk, KindOf, CallbackList.Valid, QueuesOk, SubscriptionsOk, History.Ok;
      if Closing() { return false; }
      ok := Register(Callback(fn, privdata, 1), KindOf(argv));
      if !ok { return; }
      AppendCommand(argv);
    }

    /** __redisAppendCommand, of the bytes that the formatting functions make. */
    method AppendCommand(argv: seq<Bytes>)
      requires |Wire(argv)| <= INT_MAX && OutputOk()
      modifies `obuf, `issued
      ensures OutputOk() && obuf == old(obuf) + Wire(argv) && issued == old(issued) + [argv]
    {
      hide Wire, WireAll;
      var cmd, len := FormatCommandArgv(argv);
      WireAllSnoc(issued, argv);
      obuf, issued := obuf + cmd[..len], issued + [argv];
      assert sent + obuf == sent + old(obuf) + Wire(argv);
    }

    // ---------- Callbacks and teardown ----------

    /** What a callback can change through the context, whatever it does. */
    twostate predicate KeptInCallback()
      reads this
    {
      && incoming == old(incoming) && broken == old(broken) && err == old(err) && aborted == old(aborted)
      && connected == old(connected) && frees == old(frees) && freed == old(freed) && farewell == old(farewell)
      && orphaned == old(orphaned) && sent == old(sent)
      && h.SameReplies(old(h)) && old(h).accepted <= h.accepted
      && (old(disconnecting) ==> disconnecting) && (old(freeing) ==> freeing)
    }

    /** In a closing context nothing is enqueued any more. */
    twostate predicate Sealed()
      reads this, replies, invalid
    {
      && replies.contents == old(replies.contents) && invalid.contents == old(invalid.contents)
      && Tables() == old(Tables()) && ledger == old(ledger) && h.accepted == old(h).accepted
      && subscribed == old(subscribed) && monitoring == old(monitoring) && h.special == old(h).special && obuf == old(obuf)
      && issued == old(issued)
    }

    /** What a callback that leaves the context alone leaves as it is. */
    twostate predicate Untouched()
      reads this, replies, invalid
    {
      Sealed() && disconnecting == old(disconnecting) && freeing == old(freeing)
    }

    /** With callbacks that leave the context alone, nothing but the user's own calls brings
        commands in or closes a context that goes on. */
    twostate predicate Steady()
      reads this
    {
      quiet ==>
      && issued == old(issued) && (old(h).special ==> h.special) && (!h.special ==> h.accepted == old(h).accepted)
      && (!freed && !aborted ==> disconnecting == old(disconnecting))
    }

    /** The user's code in a callback: any commands, disconnects and frees. */
    method UserActs()
      requires Valid() && Running() && inCallback
      modifies this, replies, invalid, replies.repr, invalid.repr
      ensures Valid() && inCallback && KeptInCallback() && h.log == old(h).log
      ensures (old(Closing()) ==> Sealed()) && (quiet ==> Untouched())
      ensures Grown()
      decreases 0, 10
    {
      var script: seq<UserAction> := *;
      if quiet { return; }
      for i := 0 to |script|
        invariant Valid() && inCallback && KeptInCallback() && h.log == old(h).log
        invariant old(Closing()) ==> Sealed()
        invariant Grown()
      {
        UserAct(script[i]);
      }
    }

    /** A command is refused by a closing context, and one that ends subscriptions also by a
        context that has none. */
    predicate Accepts(argv: seq<Bytes>)
      requires argv != []
      reads `disconnecting, `freeing, `subscribed
    {
      !Closing() && (KindOf(argv).Unsubscribing? ==> subscribed)
    }

    /** What a command of the user has brought about. */
    twostate predicate Obeyed(action: UserAction)
      reads `issued, `h, `disconnecting
    {
      action.Command? ==>
      && disconnecting == old(disconnecting)
      && issued == (if old(Accepts(action.argv)) then old(issued) + [action.argv] else old(issued))
      && h == (if old(Accepts(action.argv))
               then Recorded(old(h), KindOf(action.argv), Callback(action.fn, action.privdata, 1), old(subscribed))
               else old(h))
    }

    /** The user's command, as a callback sees it. */
    method UserCommand(fn: nat, privdata: nat, argv: seq<Bytes>)
      requires Valid() && Running() && argv != [] && |Wire(argv)| <= INT_MAX
      modifies this, replies, invalid, replies.repr, invalid.repr
      ensures Valid() && Grown() && KeptInCallback() && h.log == old(h).log
      ensures (old(Closing()) ==> Sealed()) && inCallback == old(inCallback) && freeing == old(freeing)
      ensures !aborted && old(h).accepted <= h.accepted && h.arrived == old(h).arrived
      ensures Obeyed(Action.Command(fn, privdata, argv))
    {
      hide Valid, Grown, KindOf, Wire;
      var _ := Command(fn, privdata, argv);
    }

    method UserAct(action: UserAction)
      requires Valid() && Running() && (inCallback || frees == 0)
      modifies this, replies, invalid, replies.repr, invalid.repr
      ensures Valid() && Grown()
      ensures old(inCallback) ==> inCallback && KeptInCallback() && h.log == old(h).log
      ensures old(inCallback) && old(Closing()) ==> Sealed()
      ensures !old(inCallback) ==> !inCallback && !aborted
      ensures !old(inCallback) ==> freed || (KeptInCallback() && freeing == old(freeing) && h.log == old(h).log)
      ensures old(h).accepted <= h.accepted && h.arrived == old(h).arrived
      ensures Obeyed(action)
      ensures action.Disconnect? ==> disconnecting && (!old(inCallback) && old(replies.contents) == [] ==> freed)
      ensures action.Free? ==> if old(inCallback) then freeing else freed
      decreases if inCallback then 0 else 1, 5
    {
      hide Valid, Grown, KindOf, Wire, KeptInCallback, Sealed;
      match action
      case Command(fn, privdata, argv) => UserCommand(fn, privdata, argv);
      case Disconnect => Disconnect();
      case Free => Free();
    }

    lemma QueueTells()
      requires Valid()
      ensures replies.head == null <==> replies.contents == []
      ensures replies.Valid() && invalid.Valid() && replies != invalid && replies.repr !! invalid.repr
    {}

    /** redisAsyncDisconnect: in a callback, or while replies are due, only a flag is set. */
    method Disconnect()
      requires Valid() && Running() && (inCallback || frees == 0)
      modifies this, replies, invalid, replies.repr, invalid.repr
      ensures Valid() && Grown() && disconnecting && inCallback == old(inCallback) && !aborted
      ensures old(inCallback) || old(replies.contents) != [] ==>
        KeptInCallback() && Sealed() && h == old(h) && freeing == old(freeing)
      ensures !old(inCallback) && old(replies.contents) == [] ==> freed
      ensures h.accepted == old(h).accepted && h.arrived == old(h).arrived
      decreases if inCallback then 0 else 1, 4
    {
      hide OutputOk, QueuesOk, SubscriptionsOk, History.Ok;
      QueueTells();
      disconnecting := true;
      if !inCallback && replies.head == null {
        AsyncDisconnect();
      }
    }

    /** redisAsyncFree: in a callback only a flag is set. */
    method Free()
      requires Valid() && Running() && (inCallback || frees == 0)
      modifies this, replies, invalid, replies.repr, invalid.repr
      ensures Valid() && Grown() && freeing && inCallback == old(inCallback) && !aborted
      ensures if old(inCallback) then KeptInCallback() && Sealed() && h == old(h) else freed
      ensures h.accepted == old(h).accepted && h.arrived == old(h).arrived
      decreases if inCallback then 0 else 1, 4
    {
      hide OutputOk, QueuesOk, SubscriptionsOk, History.Ok;
      freeing := true;
      if !inCallback {
        var _, _ := AsyncFree();
      }
    }

    /** __redisAsyncDisconnect: an error closes the context; without one no reply is due. */
    method AsyncDisconnect()
      requires Valid() && frees == 0 && !inCallback && !aborted
      requires !err ==> disconnecting && replies.contents == []
      modifies this, replies, invalid, replies.repr, invalid.repr
      ensures Valid() && Grown() && freed && !inCallback && !aborted && (old(disconnecting) ==> disconnecting)
      ensures incoming == old(incoming) && broken == old(broken)
      ensures h.accepted == old(h).accepted && h.arrived == old(h).arrived && h.answers == old(h).answers
      ensures old(h).log <= h.log
      ensures issued == old(issued) && h.special == old(h).special
      decreases 1, 3
    {
      hide OutputOk, CallbackList.Valid, AllCovered, History.Ok;
      QueueTells();
      if !err {
        var target := replies.Shift();
        assert target == None;
      } else {
        disconnecting := true;
      }
      var _, _ := AsyncFree();
    }

    /** __redisRunCallback. */
    method RunCallback(cb: Callback, reply: Option<Reply>, ghost source: Source)
      requires OutputOk() && Paired()
      requires QueuesOk() && SubscriptionsOk() && FlagsOk() && h.Ran(cb, reply, source).Ok(replies.contents)
      requires Running() && !inCallback
      modifies this, replies, invalid, replies.repr, invalid.repr
      ensures Valid() && !inCallback && Grown()
      ensures KeptInCallback() && h.log == old(h).Ran(cb, reply, source).log
      ensures (old(Closing()) ==> Sealed()) && (quiet || cb.fn == NO_FUNCTION ==> Untouched())
      ensures Steady()
      decreases 1, 0
    {
      hide OutputOk, QueuesOk, SubscriptionsOk, FlagsOk, History.Ok;
      if cb.fn != NO_FUNCTION {
        EnterCallback(cb, reply, source);
        UserActs();
        LeaveCallback();
      }
    }

    method EnterCallback(cb: Callback, reply: Option<Reply>, ghost source: Source)
      requires OutputOk() && Paired()
      requires QueuesOk() && SubscriptionsOk() && FlagsOk() && h.Ran(cb, reply, source).Ok(replies.contents)
      requires cb.fn != NO_FUNCTION
      modifies `h, `inCallback
      ensures Valid() && inCallback && h == old(h).Ran(cb, reply, source)
    {
      hide OutputOk, QueuesOk, AllCovered, History.Ok;
      h, inCallback := h.Ran(cb, reply, source), true;
    }

    method LeaveCallback()
      requires Valid()
      modifies `inCallback
      ensures Valid() && !inCallback
    {
      hide OutputOk, QueuesOk, SubscriptionsOk, FlagsOk, History.Ok;
      inCallback := false;
    }

    /** What teardown leaves as it is. */
    twostate predicate Draining()
      reads this
    {
      && incoming == old(incoming) && broken == old(broken) && err == old(err) && aborted == old(aborted)
      && connected == old(connected) && frees == old(frees) && freed == old(freed) && farewell == old(farewell)
      && orphaned == old(orphaned)
      && h.accepted == old(h).accepted && h.answers == old(h).answers && h.arrived == old(h).arrived
      && h.special == old(h).special
      && (old(disconnecting) ==> disconnecting) && (old(freeing) ==> freeing)
      && Tables() == old(Tables()) && ledger == old(ledger)
      && obuf == old(obuf) && sent == old(sent) && issued == old(issued)
      && subscribed == old(subscribed) && monitoring == old(monitoring)
    }

    ghost predicate Dying()
      reads this, replies, invalid, replies.repr, invalid.repr
    {
      Valid() && frees == 1 && !freed && !aborted && !inCallback && Closing()
    }

    /** The callbacks of regular commands, with NULL. No command can be added to them. */
    method DrainReplies()
      requires Dying()
      modifies this, replies, invalid, replies.repr, invalid.repr
      ensures Dying() && Draining() && Grown()
      ensures replies.contents == [] && invalid.contents == old(invalid.contents)
      ensures h.log == old(h).log + Nulls(old(replies.contents), Regular)
      decreases 1, 1, 4
    {
      hide OutputOk, CallbackList.Valid, AllCovered, History.Ok, Nulls;
      ghost var was, n := replies.contents, 0;
      NoNulls(Regular);
      while true
        invariant Dying() && Draining() && Grown()
        invariant 0 <= n <= |was| && replies.contents == was[n..] && invalid.contents == old(invalid.contents)
        invariant h.log == old(h).log + Nulls(was[..n], Regular)
        decreases |replies.contents|
      {
        QueueTells();
        if replies.head == null { break; }
        NullsSnoc(was[..n], was[n], Regular, old(h).log);
        assert was[..n + 1] == was[..n] + [was[n]];
        DropReply();
        n := n + 1;
      }
      assert was[..n] == was;
    }

    /** The callback at the head of the queue, with NULL. */
    method DropReply()
      requires Dying() && replies.contents != []
      modifies this, replies, invalid, replies.repr, invalid.repr
      ensures Dying() && Draining() && Grown()
      ensures replies.contents == old(replies.contents)[1..] && invalid.contents == old(invalid.contents)
      ensures var cb := old(replies.contents)[0];
        h.log == old(h).log + if cb.fn == NO_FUNCTION then [] else [Run(cb, None, Regular)]
      decreases 1, 1, 3
    {
      hide OutputOk, CallbackList.Valid, AllCovered, History.Ok;
      QueueTells();
      var target := replies.Shift();
      h.GiveUpOk(old(replies.contents));
      h := h.GiveUp();
      RunCallback(target.value, None, Regular);
    }

    lemma NoNulls(source: Source)
      ensures Nulls([], source) == []
    {}

    /** The callbacks of commands issued while subscribed. */
    method DrainInvalid()
      requires Dying()
      modifies this, replies, invalid, replies.repr, invalid.repr
      ensures Dying() && Draining() && Grown()
      ensures replies.contents == old(replies.contents) && invalid.contents == []
      ensures h.log == old(h).log + Nulls(old(invalid.contents), Invalid)
      decreases 1, 1, 4
    {
      hide OutputOk, CallbackList.Valid, AllCovered, History.Ok, Nulls;
      ghost var was, n := invalid.contents, 0;
      NoNulls(Invalid);
      while true
        invariant Dying() && Draining() && Grown()
        invariant 0 <= n <= |was| && invalid.contents == was[n..] && replies.contents == old(replies.contents)
        invariant h.log == old(h).log + Nulls(was[..n], Invalid)
        decreases |invalid.contents|
      {
        QueueTells();
        var target := invalid.Shift();
        if target.None? { break; }
        h.OtherOk(replies.contents, target.value, None, Invalid);
        NullsSnoc(was[..n], was[n], Invalid, old(h).log);
        assert was[..n + 1] == was[..n] + [was[n]];
        RunCallback(target.value, None, Invalid);
        n := n + 1;
      }
      assert was[..n] == was;
    }

    method DrainQueues()
      requires Dying()
      modifies this, replies, invalid, replies.repr, invalid.repr
      ensures Dying() && Draining() && Grown() && replies.contents == [] && invalid.contents == []
      ensures h.log == old(h).log + Nulls(old(replies.contents), Regular) + Nulls(old(invalid.contents), Invalid)
      decreases 1, 1, 5
    {
      hide Dying, Nulls;
      DrainReplies();
      DrainInvalid();
    }

    /** The callbacks of the subscriptions in one dictionary, each once, in an order that
        the hash table decides. */
    method DrainTable(table: Table) returns (ghost order: seq<Bytes>)
      requires Dying() && (table != map[] ==> h.special)
      modifies this, replies, invalid, replies.repr, invalid.repr
      ensures Dying() && Draining() && Grown()
      ensures replies.contents == old(replies.contents) && invalid.contents == old(invalid.contents)
      ensures Lists(order, table) && h.log == old(h).log + Nulls(Entries(table, order), Subscription)
      decreases 1, 1, 4
    {
      hide OutputOk, QueuesOk, AllCovered, History.Ok, Nulls;
      order := [];
      NoNulls(Subscription);
      var left := table.Keys;
      while left != {}
        invariant Dying() && Draining() && Grown()
        invariant replies.contents == old(replies.contents) && invalid.contents == old(invalid.contents)
        invariant forall i, j :: 0 <= i < j < |order| ==> order[i] != order[j]
        invariant left <= table.Keys && forall n :: n in order <==> n in table.Keys - left
        invariant h.log == old(h).log + Nulls(Entries(table, order), Subscription)
        decreases left
      {
        var name :| name in left;
        assert name !in order;
        h.OtherOk(replies.contents, table[name], None, Subscription);
        NullsSnoc(Entries(table, order), table[name], Subscription, old(h).log);
        assert Entries(table, order + [name]) == Entries(table, order) + [table[name]];
        RunCallback(table[name], None, Subscription);
        left, order := left - {name}, order + [name];
      }
    }

    method DrainTables() returns (ghost names: seq<Bytes>, ghost globs: seq<Bytes>)
      requires Dying() && (channels != map[] || patterns != map[] ==> h.special)
      modifies this, replies, invalid, replies.repr, invalid.repr
      ensures Dying() && Draining() && Grown()
      ensures replies.contents == old(replies.contents) && invalid.contents == old(invalid.contents)
      ensures Lists(names, channels) && Lists(globs, patterns)
      ensures h.log
        == old(h).log + Nulls(Entries(channels, names), Subscription) + Nulls(Entries(patterns, globs), Subscription)
      decreases 1, 1, 5
    {
      hide Dying, Nulls, Entries, Lists;
      names := DrainTable(channels);
      globs := DrainTable(patterns);
    }

    method Begin()
      requires Valid() && frees == 0 && !inCallback && !aborted && Closing()
      modifies `frees
      ensures Dying() && (channels != map[] || patterns != map[] ==> h.special)
    {
      hide OutputOk, QueuesOk, AllCovered, History.Ok;
      frees := frees + 1;
    }

    /** The dictionaries are released, which nobody reads any more, and the user is told. */
    method End()
      requires Dying() && replies.contents == []
      modifies `farewell, `freed
      ensures Valid() && freed && frees == 1 && !inCallback && !aborted && |h.outcomes| == |h.accepted|
      ensures farewell == if connected then Some(freeing || !err) else old(farewell)
    {
      hide OutputOk, QueuesOk, SubscriptionsOk;
      h.AllServed();
      if connected {
        farewell := Some(freeing || !err);
      }
      freed := true;
    }

    /** __redisAsyncFree, which only a closing context reaches, and only once: every
        callback that is still due runs with NULL, the regular ones in order. */
    method AsyncFree() returns (ghost names: seq<Bytes>, ghost globs: seq<Bytes>)
      requires Valid() && frees == 0 && !inCallback && !aborted && Closing()
      modifies this, replies, invalid, replies.repr, invalid.repr
      ensures Valid() && Grown()
      ensures incoming == old(incoming) && broken == old(broken)
      ensures freed && frees == 1 && !inCallback && !aborted && |h.outcomes| == |h.accepted|
      ensures h.accepted == old(h).accepted && h.answers == old(h).answers && h.arrived == old(h).arrived
      ensures Lists(names, old(channels)) && Lists(globs, old(patterns))
      ensures h.log == old(h).log + Nulls(old(replies.contents), Regular) + Nulls(old(invalid.contents), Invalid)
        + Nulls(Entries(old(channels), names), Subscription) + Nulls(Entries(old(patterns), globs), Subscription)
      ensures farewell == if old(connected) then Some(freeing || !old(err)) else old(farewell)
      ensures (old(disconnecting) ==> disconnecting) && (old(freeing) ==> freeing)
      ensures issued == old(issued) && h.special == old(h).special
      decreases 1, 2
    {
      hide Valid, Dying, Nulls, Entries, Lists;
      Begin();
      DrainQueues();
      names, globs := DrainTables();
      End();
    }

    // ---------- Replies ----------

    /** redisGetReply of a context that does not block: the next reply that the reader
        holds, or none, or the error that ends the stream. */
    method GetReply() returns (ok: bool, reply: Option<Reply>)
      modifies `incoming, `err
      ensures reply.Some? ==> ok && old(incoming) == [reply.value] + incoming
      ensures reply.None? ==> incoming == old(incoming) == [] && ok == !broken
      ensures err == (old(err) || !ok)
      ensures old(Live()) ==> Live()
    {
      if incoming != [] {
        reply, incoming := Some(incoming[0]), incoming[1..];
        return true, reply;
      }
      if broken {
        err := true;
        return false, None;
      }
      return true, None;
    }

    /** A subscribe notice is counted against its entry, if there is one. */
    method CountNotice(n: Name, word: Bytes)
      requires AllCovered(Tables(), ledger)
      modifies `channels, `patterns, `ledger
      ensures AllCovered(Tables(), ledger)
      ensures ledger == if word == SUBSCRIBE then old(ledger).Acknowledge(n) else old(ledger)
      ensures Tables() == Counted(old(Tables()), n, word)
      ensures word != SUBSCRIBE || n.text !in old(Tables()).Get(n.pattern) ==> Tables() == old(Tables())
      ensures word == SUBSCRIBE && n.text in old(Tables()).Get(n.pattern) ==>
        var was := old(Tables()).Get(n.pattern);
        && Tables().Get(n.pattern) == was[n.text := was[n.text].(pendingSubs := was[n.text].pendingSubs - 1)]
        && Tables().Get(!n.pattern) == old(Tables()).Get(!n.pattern)
    {
      hide AllCovered;
      if word == SUBSCRIBE {
        AcknowledgeCovered(Tables(), ledger, n);
        var callbacks := if n.pattern then patterns else channels;
        if n.text in callbacks {
          var cb := callbacks[n.text];
          callbacks := callbacks[n.text := cb.(pendingSubs := cb.pendingSubs - 1)];
          if n.pattern { patterns := callbacks; } else { channels := callbacks; }
        }
        ledger := ledger.Acknowledge(n);
      }
    }

    /** The entry of a name that nothing is owed for goes. */
    method RemoveEntry(n: Name)
      requires AllCovered(Tables(), ledger)
      requires n.text in Tables().Get(n.pattern) && Tables().Get(n.pattern)[n.text].pendingSubs == 0
      modifies `channels, `patterns
      ensures Tables() == old(Tables()).Set(n.pattern, old(Tables()).Get(n.pattern) - {n.text})
      ensures AllCovered(Tables(), ledger) && (ledger.honest ==> ledger.Owed(n) == 0)
    {
      hide AllCovered;
      RemoveCovered(Tables(), ledger, n);
      if n.pattern {
        patterns := patterns - {n.text};
      } else {
        channels := channels - {n.text};
      }
    }

    /** An unsubscribe notice removes an entry that no acknowledgement is due for, and ends
        the subscribed mode when the server counts no subscription and no entry is left. */
    method CountOff(n: Name, left: int)
      requires SubscriptionsOk() && n.text in Tables().Get(n.pattern) && subscribed
      modifies `channels, `patterns, `subscribed
      ensures SubscriptionsOk()
      ensures Tables() == Removed(old(Tables()), n)
      ensures if old(Tables()).Get(n.pattern)[n.text].pendingSubs != 0 then Tables() == old(Tables()) else
        && Tables().Get(n.pattern) == old(Tables()).Get(n.pattern) - {n.text}
        && Tables().Get(!n.pattern) == old(Tables()).Get(!n.pattern)
      ensures n.text !in Tables().Get(n.pattern) && ledger.honest ==> ledger.Owed(n) == 0
      ensures subscribed <==> !(left == 0 && channels == map[] && patterns == map[])
    {
      hide AllCovered;
      var callbacks := if n.pattern then patterns else channels;
      if callbacks[n.text].pendingSubs == 0 {
        RemoveEntry(n);
      }
      if left == 0 && |channels| == 0 && |patterns| == 0 {
        subscribed := false;
      }
    }

    /** A message or a notice: the callback of its name, if there is an entry. */
    method FindEntry(reply: Reply, pattern: bool, word: Bytes, name: Bytes, left: Option<int>, dstcb: Callback)
      returns (cb: Callback, ghost source: Source)
      requires SubscriptionsOk() && subscribed && NoticeOf(reply) == Notice(pattern, word, name, left)
      modifies `channels, `patterns, `ledger, `subscribed, `aborted
      ensures SubscriptionsOk() && source != Regular
      ensures aborted == (old(aborted) || Fails(old(ModeOf(dstcb)), reply))
      ensures !Fails(old(ModeOf(dstcb)), reply) ==>
        Dispatched(ModeOf(cb), source) == DispatchNotice(old(ModeOf(dstcb)), reply)
    {
      hide AllCovered, NoticeOf;
      cb, source := dstcb, Stale;
      var known := name in if pattern then patterns else channels;
      CountNotice(Name(pattern, name), word);
      if known {
        cb, source := (if pattern then patterns else channels)[name], Subscription;
        if word == UNSUBSCRIBE {
          if left.None? {
            aborted := true;
          } else {
            CountOff(Name(pattern, name), left.value);
          }
        }
      }
    }

    /** __redisGetSubscribeCallback: the callback for a reply in a subscribed context. When
        none is found, the variable keeps the callback of an earlier reply. */
    method GetSubscribeCallback(reply: Reply, dstcb: Callback) returns (cb: Callback, ghost source: Source)
      requires QueuesOk() && SubscriptionsOk() && subscribed
      modifies `channels, `patterns, `ledger, `subscribed, `aborted, invalid
      ensures QueuesOk() && SubscriptionsOk() && invalid.repr == old(invalid.repr) && source != Regular
      ensures aborted == (old(aborted) || Fails(old(ModeOf(dstcb)), reply))
      ensures !Fails(old(ModeOf(dstcb)), reply) ==>
        Dispatched(ModeOf(cb), source) == DispatchNotice(old(ModeOf(dstcb)), reply)
    {
      hide OutputOk, CallbackList.Valid, AllCovered, NoticeOf;
      cb, source := dstcb, Stale;
      match NoticeOf(reply)
      case Misshapen =>
        aborted := true;
      case NoNotice =>
        var target := invalid.Shift();
        if target.Some? { cb, source := target.value, Invalid; }
      case Notice(pattern, word, name, left) =>
        cb, source := FindEntry(reply, pattern, word, name, left, dstcb);
    }

    /** Between replies: alive, and in no callback. */
    ghost predicate Live()
      reads this, replies, invalid, replies.repr, invalid.repr
    {
      Valid() && frees == 0 && !inCallback && !orphaned && !aborted && !freeing
    }

    /** The oldest command that waits. */
    method MatchQueued(reply: Reply) returns (cb: Callback)
      requires Live() && replies.contents != []
      modifies `h, replies
      ensures OutputOk() && Paired() && QueuesOk() && SubscriptionsOk() && FlagsOk() && Grown()
      ensures h.arrived == old(h).arrived + [reply] && h.log == old(h).log && h.accepted == old(h).accepted
      ensures h.special == old(h).special
      ensures h.answers == old(h).answers + [reply] && h.Ran(cb, Some(reply), Regular).Ok(replies.contents)
      ensures [cb] + replies.contents == old(replies.contents) && invalid.contents == old(invalid.contents)
    {
      hide OutputOk, CallbackList.Valid, AllCovered, History.Ok;
      QueueTells();
      var target := replies.Shift();
      cb := target.value;
      h.AnswerOk(old(replies.contents), reply);
      h := h.Answer(reply);
    }

    /** With nothing in the queue: a subscription, or what is left over. */
    method MatchOther(reply: Reply, cb0: Callback) returns (cb: Callback, ghost source: Source)
      requires Live() && replies.contents == [] && (subscribed || monitoring)
      modifies `h, `channels, `patterns, `ledger, `subscribed, `aborted, invalid
      ensures OutputOk() && Paired() && QueuesOk() && SubscriptionsOk() && FlagsOk() && Grown()
      ensures h.arrived == old(h).arrived + [reply] && h.log == old(h).log && h.accepted == old(h).accepted
      ensures h.special == old(h).special
      ensures h.answers == old(h).answers && h.Ran(cb, Some(reply), source).Ok([]) && h.Ok([])
      ensures aborted == (old(subscribed) && Fails(old(ModeOf(cb0)), reply))
      ensures !aborted ==> Dispatched(ModeOf(cb), source) == Dispatch(old(ModeOf(cb0)), reply)
    {
      hide OutputOk, CallbackList.Valid, AllCovered, NoticeOf, History.Ok, DispatchNotice, Fails;
      cb, source := cb0, Stale;
      if subscribed { cb, source := GetSubscribeCallback(reply, cb0); }
      h.ArriveOk([], reply);
      h.Arrive(reply).OtherOk([], cb, Some(reply), source);
      h := h.Arrive(reply);
    }

    /** The callback that a reply is for. `Regular` ones come from the queue, in order. */
    method Match(reply: Reply, cb0: Callback) returns (cb: Callback, ghost source: Source)
      requires Live() && (replies.contents == [] ==> subscribed || monitoring)
      modifies `h, `channels, `patterns, `ledger, `subscribed, `aborted, replies, invalid
      ensures OutputOk() && Paired() && QueuesOk() && SubscriptionsOk() && FlagsOk() && Grown()
      ensures h.arrived == old(h).arrived + [reply] && h.log == old(h).log && h.accepted == old(h).accepted
      ensures h.special == old(h).special
      ensures h.Ran(cb, Some(reply), source).Ok(replies.contents) && (aborted ==> h.Ok(replies.contents))
      ensures aborted == (old(replies.contents) == [] && old(subscribed) && Fails(old(ModeOf(cb0)), reply))
      ensures !aborted ==> Dispatched(ModeOf(cb), source) == Dispatch(old(ModeOf(cb0)), reply)
      ensures h.answers == if old(replies.contents) == [] then old(h).answers else old(h).answers + [reply]
    {
      hide Valid, Grown, OutputOk, QueuesOk, SubscriptionsOk, FlagsOk, History.Ok, DispatchNotice, Fails;
      QueueTells();
      if replies.head == null {
        cb, source := MatchOther(reply, cb0);
      } else {
        source := Regular;
        cb := MatchQueued(reply);
      }
    }

    /** A reply that nobody waits for: an error closes the context, anything else is a
        failed assertion. */
    method ProcessOrphan(reply: Reply)
      requires Live() && replies.contents == [] && (reply.Error? || !(subscribed || monitoring))
      modifies this, replies, invalid, replies.repr, invalid.repr
      ensures Valid() && Grown() && !inCallback && incoming == old(incoming) && broken == old(broken)
      ensures h.arrived == old(h).arrived + [reply] && h.accepted == old(h).accepted && h.answers == old(h).answers
      ensures if reply.Error? then freed && !aborted else aborted
      ensures old(h).log <= h.log
      ensures aborted ==> h.log == old(h).log && err == old(err) && connected == old(connected)
      ensures Steady()
    {
      hide OutputOk, QueuesOk, AllCovered, History.Ok;
      h.ArriveOk([], reply);
      h := h.Arrive(reply);
      if reply.Error? {
        err, orphaned := true, true;
        AsyncDisconnect();
      } else {
        aborted := true;
      }
    }

    /** The callback runs, and the context ends if somebody asked for that. */
    method Serve(cb: Callback, reply: Reply, ghost source: Source)
      requires OutputOk() && Paired()
      requires QueuesOk() && SubscriptionsOk() && FlagsOk() && h.Ran(cb, Some(reply), source).Ok(replies.contents)
      requires frees == 0 && !inCallback && !orphaned && !aborted && !freeing && cb.fn != NO_FUNCTION
      modifies this, replies, invalid, replies.repr, invalid.repr
      ensures Valid() && Grown() && !inCallback && !aborted && incoming == old(incoming) && broken == old(broken)
      ensures (freed || Live()) && (!freed ==> err == old(err) && connected == old(connected))
      ensures quiet ==> Live() && Untouched()
      ensures h.arrived == old(h).arrived && h.answers == old(h).answers && old(h).accepted <= h.accepted
      ensures old(h).log + [Run(cb, Some(reply), source)] <= h.log
      ensures !freed ==> h.log == old(h).log + [Run(cb, Some(reply), source)]
      ensures Steady()
    {
      hide OutputOk, QueuesOk, SubscriptionsOk, History.Ok;
      RunCallback(cb, Some(reply), source);
      if freeing {
        var _, _ := AsyncFree();
      }
    }

    /** The callback that is found for a reply runs, and the context ends if it asked for
        that. `cb` keeps the callback for the next round. */
    method ProcessTaken(reply: Reply, cb0: Callback) returns (cb: Callback, ghost source: Source)
      requires Live() && (replies.contents == [] ==> subscribed || monitoring)
      modifies this, replies, invalid, replies.repr, invalid.repr
      ensures Valid() && Grown() && !inCallback && incoming == old(incoming) && broken == old(broken)
      ensures (freed || aborted || Live()) && (!freed ==> err == old(err) && connected == old(connected))
      ensures h.arrived == old(h).arrived + [reply] && old(h).accepted <= h.accepted
      ensures h.answers == if old(replies.contents) == [] then old(h).answers else old(h).answers + [reply]
      ensures aborted == (old(replies.contents) == [] && old(subscribed) && Fails(old(ModeOf(cb0)), reply))
      ensures aborted ==> h.log == old(h).log
      ensures !aborted ==> var d := Dispatch(old(ModeOf(cb0)), reply);
        && cb == d.mode.last && source == d.source
        && old(h).log + RunOf(Finding(cb, source), reply) <= h.log
        && (!freed ==> h.log == old(h).log + RunOf(Finding(cb, source), reply))
        && (quiet ==> Live() && !freed && disconnecting == old(disconnecting) && ModeOf(cb) == d.mode)
      ensures Steady()
    {
      hide OutputOk, QueuesOk, SubscriptionsOk, History.Ok, Dispatch, Fails;
      cb, source := Match(reply, cb0);
      if aborted { return; }
      if cb.fn != NO_FUNCTION {
        Serve(cb, reply, source);
      }
    }

    /** One reply, given the callback of the round before. In a subscribed context that may
        be run again, with a reply that is not its own: exactly when `Dispatch` says that it
        is stale. */
    method ProcessReply(reply: Reply, cb0: Callback) returns (cb: Callback, ghost source: Source)
      requires Live()
      modifies this, replies, invalid, replies.repr, invalid.repr
      ensures Valid() && Grown() && !inCallback && incoming == old(incoming) && broken == old(broken)
      ensures (freed || aborted || Live()) && (!freed ==> err == old(err) && connected == old(connected))
      ensures h.arrived == old(h).arrived + [reply] && old(h).accepted <= h.accepted
      ensures h.answers == if old(replies.contents) == [] then old(h).answers else old(h).answers + [reply]
      ensures old(h).log <= h.log && (aborted ==> h.log == old(h).log)
      ensures !Taken(old(ModeOf(cb0)), reply) ==> if old(replies.contents) == [] && reply.Error? then freed else aborted
      ensures Taken(old(ModeOf(cb0)), reply) ==> var d := Dispatch(old(ModeOf(cb0)), reply);
        && !aborted && cb == d.mode.last && source == d.source
        && old(h).log + RunOf(Finding(cb, source), reply) <= h.log
        && (!freed ==> h.log == old(h).log + RunOf(Finding(cb, source), reply))
        && (quiet ==> Live() && !freed && disconnecting == old(disconnecting) && ModeOf(cb) == d.mode)
      ensures Steady()
    {
      hide OutputOk, QueuesOk, SubscriptionsOk, History.Ok, FlagsOk, Dispatch, Fails;
      cb, source := cb0, Stale;
      QueueTells();
      if replies.head == null && (reply.Error? || !(subscribed || monitoring)) {
        ProcessOrphan(reply);
      } else {
        cb, source := ProcessTaken(reply, cb0);
      }
    }

    /** With callbacks that leave the context alone, what is still to come is what the whole
        batch comes to. */
    ghost predicate OnTrack(all: Played, cb: Callback, left: seq<Reply>)
      reads `h, `disconnecting, `channels, `patterns, `ledger, `subscribed, `monitoring, replies`contents, invalid`contents
    {
      var rest := Replay(ModeOf(cb), left);
      !disconnecting && rest.fine && rest.mode == all.mode && h.log + rest.runs == all.runs
    }

    /** One round of the loop, with the next reply. */
    method Round(reply: Reply, cb: Callback, ghost h0: History, ghost in0: seq<Reply>, ghost all: Played,
                 ghost found: seq<Finding>, ghost taken: seq<Reply>)
      returns (next: Callback, ghost found': seq<Finding>, ghost taken': seq<Reply>)
      requires Live() && !err && cb == LastOf(found) && Progress(h, h0, in0, [reply] + incoming, found, taken)
      modifies this, replies, invalid, replies.repr, invalid.repr
      ensures Valid() && Grown() && !inCallback && broken == old(broken) && incoming == old(incoming)
      ensures freed || aborted || (Live() && !err && connected == old(connected))
      ensures !freed && !aborted ==> next == LastOf(found') && Progress(h, h0, in0, incoming, found', taken')
      ensures Sofar(h, freed, incoming, h0, in0, found', taken')
      ensures quiet && old(OnTrack(all, cb, [reply] + incoming)) ==> !freed && !aborted && OnTrack(all, next, incoming)
      ensures Steady()
    {
      hide Valid, Live, Replay, Progress, Sofar, Dispatch, Taken, RunOf;
      ghost var m, h1 := ModeOf(cb), h;
      ReplaySome(m, reply, incoming, h.log);
      ghost var source: Source;
      next, source := ProcessReply(reply, cb);
      found', taken' := found, taken;
      if Taken(m, reply) {
        Advance(h1, h, freed, h0, in0, incoming, found, taken, Finding(next, source), m, reply);
        found', taken' := found + [Finding(next, source)], taken + [reply];
      } else {
        Stop(h1, h, freed, h0, in0, incoming, found, taken, reply);
      }
    }

    /** No reply is left: the context ends after an error, or when it was only waiting for
        the last reply and the last byte to go out. In monitor mode the callback that was
        found last goes to the end of the queue. */
    method RunDry(ok: bool, cb: Callback, ghost h0: History, ghost in0: seq<Reply>, ghost all: Played,
                  ghost found: seq<Finding>, ghost taken: seq<Reply>)
      requires Live() && (!ok ==> err) && incoming == [] && Progress(h, h0, in0, incoming, found, taken)
      modifies this, replies, invalid, replies.repr, invalid.repr
      ensures Valid() && Grown() && !inCallback && !aborted && incoming == [] && broken == old(broken)
      ensures freed == (!ok || (old(disconnecting) && old(obuf) == [] && old(replies.contents) == []))
      ensures !freed ==> Live() && err == old(err) && connected == old(connected)
      ensures !freed ==> !(disconnecting && obuf == [] && replies.contents == [])
      ensures Sofar(h, freed, incoming, h0, in0, found, taken)
      ensures ok && old(OnTrack(all, cb, incoming)) ==>
        !freed && !disconnecting && h.log == all.runs && ModeOf(cb) == Repushed(all.mode)
      ensures Steady()
    {
      hide OutputOk, QueuesOk, SubscriptionsOk, History.Ok, Replay, Served, StaleRepeats;
      ReplayNone(ModeOf(cb));
      QueueTells();
      if !ok || (disconnecting && obuf == [] && replies.head == null) {
        AsyncDisconnect();
      } else if monitoring {
        Enqueue(cb);
      }
    }

    lemma LiveGoesOn()
      requires Live()
      ensures !freed && !aborted
    {}

    lemma Start()
      ensures Progress(h, h, incoming, incoming, [], [])
      ensures var all := Replay(ModeOf(NO_CALLBACK), incoming);
        !disconnecting && all.fine ==> OnTrack(all.(runs := h.log + all.runs), NO_CALLBACK, incoming)
    {
      hide Replay, Served, StaleRepeats;
      NothingServed();
    }

    /** redisProcessCallbacks: the replies that the reader holds, in order, until there are
        no more or the context is gone. `found` are the callbacks that the replies `taken`
        have found: they run, and nothing else does before a teardown. Every stale one is
        that of the reply before it. */
    method ProcessCallbacks() returns (ghost found: seq<Finding>, ghost taken: seq<Reply>)
      requires Live() && !err
      modifies this, replies, invalid, replies.repr, invalid.repr
      ensures Valid() && Grown() && !inCallback && broken == old(broken)
      ensures freed || aborted || (Live() && !err && incoming == [] && !broken && connected == old(connected))
      ensures !freed && !aborted ==> !(disconnecting && obuf == [] && replies.contents == [])
      ensures Sofar(h, freed, incoming, old(h), old(incoming), found, taken)
      ensures var all := Replay(old(ModeOf(NO_CALLBACK)), old(incoming));
        quiet && !old(disconnecting) && !broken && all.fine ==>
        && !freed && !aborted && !disconnecting && h.log == old(h).log + all.runs
        && ModeOf(NO_CALLBACK) == Repushed(all.mode).(last := NO_CALLBACK)
      ensures Steady()
    {
      hide Valid, Live, Replay, Progress, OnTrack, Sofar;
      var cb := NO_CALLBACK;
      found, taken := [], [];
      Start();
      LiveGoesOn();
      ghost var h0, in0 := h, incoming;
      ghost var all := Replay(ModeOf(cb), incoming);
      all := all.(runs := h.log + all.runs);
      ghost var steady := quiet && !disconnecting && all.fine;
      while true
        invariant Steady() && !freed && !aborted
        invariant Live() && !err && Grown() && broken == old(broken) && connected == old(connected)
        invariant cb == LastOf(found) && Progress(h, h0, in0, incoming, found, taken)
        invariant steady ==> OnTrack(all, cb, incoming)
        decreases |incoming|
      {
        var ok, reply := GetReply();
        if reply.None? {
          RunDry(ok, cb, h0, in0, all, found, taken);
          return;
        }
        cb, found, taken := Round(reply.value, cb, h0, in0, all, found, taken);
        if freed || aborted { return; }
      }
    }

    // ---------- Events ----------

    /** Waiting for the next event: alive, with nothing left to process. A connection that is
        there has seen no error. */
    ghost predicate Idle()
      reads this, replies, invalid, replies.repr, invalid.repr
    {
      Live() && incoming == [] && !broken && (connected ==> !err)
    }

    lemma IdleIsValid()
      requires Idle()
      ensures Valid() && !freed && !aborted
    {}

    /** The user's code in the callback for connecting, which is no reply callback: it may
        end the context at once. */
    method OnConnect()
      requires Live()
      modifies this, replies, invalid, replies.repr, invalid.repr
      ensures Valid() && Grown() && !inCallback && !aborted && (freed || (Live() && KeptInCallback()))
      ensures quiet ==> Live() && Untouched() && h == old(h)
      ensures old(h).accepted <= h.accepted && h.arrived == old(h).arrived
      ensures Steady()
    {
      hide OutputOk, QueuesOk, SubscriptionsOk, History.Ok;
      var script: seq<UserAction> := *;
      if quiet { return; }
      for i := 0 to |script|
        invariant Live() && Grown() && KeptInCallback()
        invariant old(h).accepted <= h.accepted && h.arrived == old(h).arrived
      {
        UserAct(script[i]);
        if freed { return; }
      }
    }

    /** __redisAsyncHandleConnect: true when the connection is there. A connection that is
        still in progress leaves an error behind. */
    method HandleConnect(connect: Connect) returns (ok: bool)
      requires Idle()
      modifies this, replies, invalid, replies.repr, invalid.repr
      ensures Valid() && Grown() && !inCallback && !aborted && ok == (!freed && connected)
      ensures !freed ==> Live() && incoming == [] && !broken
      ensures old(connected) ==> ok && !err
      ensures !old(connected) && connect.ConnectFailed? ==> freed
      ensures freed ==> !old(connected) && (connect.ConnectFailed? || (connect.Established? && !quiet))
      ensures !freed ==> err == (old(err) || (!old(connected) && connect.InProgress?))
      ensures !freed ==> connected == (old(connected) || connect.Established?)
      ensures !freed && (old(connected) || connect.InProgress? || quiet) ==>
        && h == old(h) && obuf == old(obuf) && sent == old(sent) && disconnecting == old(disconnecting)
        && ModeOf(NO_CALLBACK) == old(ModeOf(NO_CALLBACK))
      ensures old(h).accepted <= h.accepted && h.arrived == old(h).arrived
      ensures Steady()
    {
      hide OutputOk, QueuesOk, SubscriptionsOk, History.Ok;
      if connected { return true; }
      match connect
      case InProgress =>
        err := true;
        ok := false;
      case ConnectFailed =>
        err := true;
        OnConnect();
        if !freed { AsyncDisconnect(); }
        ok := false;
      case Established =>
        connected := true;
        OnConnect();
        ok := !freed;
    }

    /** An error of the socket ends the context. */
    method Fail()
      requires Live()
      modifies this, replies, invalid, replies.repr, invalid.repr
      ensures Valid() && Grown() && freed && !inCallback && !aborted
      ensures h.accepted == old(h).accepted && h.arrived == old(h).arrived
      ensures issued == old(issued) && h.special == old(h).special
    {
      hide OutputOk, QueuesOk, SubscriptionsOk, History.Ok;
      err := true;
      AsyncDisconnect();
    }

    method Receive(arrived: seq<Reply>, breaks: bool)
      requires Live()
      modifies `incoming, `broken
      ensures Live() && incoming == arrived && broken == breaks
    {
      hide OutputOk, QueuesOk, SubscriptionsOk, FlagsOk, History.Ok;
      incoming, broken := arrived, breaks;
    }

    /** redisAsyncHandleRead, given what the socket says. An error of before, or of reading,
        ends the context. */
    method HandleRead(connect: Connect, arrival: Arrival)
      requires Idle()
      modifies this, replies, invalid, replies.repr, invalid.repr
      ensures Valid() && Grown() && !inCallback && (freed || aborted || Idle())
      ensures old(h).accepted <= h.accepted
      ensures !old(connected) && connect.Established? && old(err) ==> freed
      ensures (old(connected) || connect.Established?) && (arrival.ReadFailed? || arrival.broken) ==> freed || aborted
      ensures arrival.Data? ==> old(h).arrived <= h.arrived <= old(h).arrived + arrival.replies
      ensures arrival.Data? && (old(connected) || connect.Established?) && !freed && !aborted ==>
        h.arrived == old(h).arrived + arrival.replies
      ensures arrival.ReadFailed? ==> h.arrived == old(h).arrived
      ensures quiet && old(connected) && !old(disconnecting) && arrival.Data? && !arrival.broken ==>
        var all := Replay(old(ModeOf(NO_CALLBACK)), arrival.replies);
        all.fine ==>
        && Idle() && connected && !disconnecting && h.log == old(h).log + all.runs
        && ModeOf(NO_CALLBACK) == Repushed(all.mode).(last := NO_CALLBACK)
      ensures !freed && !aborted ==> connected == (old(connected) || connect.Established?)
      ensures !freed && !aborted ==>
        h.arrived == old(h).arrived + if connected && arrival.Data? then arrival.replies else []
      ensures Steady()
    {
      hide OutputOk, QueuesOk, SubscriptionsOk, History.Ok, Replay, Served, StaleRepeats;
      var ok := HandleConnect(connect);
      if !ok { return; }
      if err || arrival.ReadFailed? {
        Fail();
        return;
      }
      Receive(arrival.replies, arrival.broken);
      var _, _ := ProcessCallbacks();
      assert h.arrived <= h.arrived + incoming;
    }

    /** So many bytes go out. */
    method Send(n: nat)
      requires Live() && n <= |obuf|
      modifies `obuf, `sent
      ensures Live() && obuf == old(obuf)[n..] && sent == old(sent) + old(obuf)[..n]
      ensures sent + obuf == old(sent) + old(obuf)
    {
      hide QueuesOk, SubscriptionsOk, FlagsOk, History.Ok, WireAll;
      assert obuf == obuf[..n] + obuf[n..];
      sent, obuf := sent + obuf[..n], obuf[n..];
      assert sent + obuf == old(sent) + old(obuf);
    }

    /** redisAsyncHandleWrite: the socket takes some of the output, at most `taken` bytes, or
        the context ends. */
    method HandleWrite(connect: Connect, taken: Option<nat>)
      requires Idle()
      modifies this, replies, invalid, replies.repr, invalid.repr
      ensures Valid() && Grown() && !inCallback && !aborted && (freed || Idle())
      ensures old(h).accepted <= h.accepted && h.arrived == old(h).arrived
      ensures old(connected) ==> freed == taken.None?
      ensures !old(connected) && connect.Established? && (old(err) || taken.None?) ==> freed
      ensures quiet && !old(connected) && connect.Established? ==> freed == (old(err) || taken.None?)
      ensures !freed ==> connected == (old(connected) || connect.Established?)
      ensures !freed && (old(connected) || connect.InProgress? || quiet) ==>
        && h == old(h) && disconnecting == old(disconnecting) && ModeOf(NO_CALLBACK) == old(ModeOf(NO_CALLBACK))
        && sent + obuf == old(sent) + old(obuf)
        && obuf == if connected then old(obuf)[Least(taken.value, |old(obuf)|)..] else old(obuf)
      ensures Steady()
    {
      hide OutputOk, QueuesOk, SubscriptionsOk, History.Ok;
      var ok := HandleConnect(connect);
      if !ok { return; }
      if err || taken.None? {
        Fail();
        return;
      }
      Send(Least(taken.value, |obuf|));
    }

    lemma NotSubscribed()
      requires Valid() && !h.special
      ensures !subscribed
    {}

    /** One event, on the accounts: as long as callbacks leave the context alone and it goes on,
        every plain call is accepted. */
    twostate predicate Accounted(event: Event)
      reads this
    {
      quiet && !old(Closing()) && Plain(event) && !freed && !aborted ==>
      && !disconnecting && issued == old(issued) + Order(event) && (old(h).special ==> h.special)
      && (!h.special ==> h.accepted == old(h).accepted + Caller(event))
    }

    method Handle(event: Event)
      requires Idle()
      modifies this, replies, invalid, replies.repr, invalid.repr
      ensures Valid() && Grown() && !inCallback && (freed || aborted || Idle())
      ensures old(h).accepted <= h.accepted
      ensures !(event.Readable? && event.arrival.Data?) ==> h.arrived == old(h).arrived
      ensures Accounted(event)
      ensures event.Call? && event.action.Disconnect? ==> disconnecting && (old(replies.contents) == [] ==> freed)
      ensures event.Call? && event.action.Free? ==> freed
      ensures event.Writable? && old(connected) ==> if event.taken.None? then freed else
        !freed && obuf == old(obuf)[Least(event.taken.value, |old(obuf)|)..] && sent + obuf == old(sent) + old(obuf)
      ensures !freed && !aborted ==> connected == Connects(old(connected), event)
      ensures !freed && !aborted ==> h.arrived == old(h).arrived + Brought(old(connected), [event])
    {
      hide OutputOk, QueuesOk, SubscriptionsOk, History.Ok, KindOf;
      if !h.special { NotSubscribed(); }
      match event
      case Readable(connect, arrival) => HandleRead(connect, arrival);
      case Writable(connect, taken) => HandleWrite(connect, taken);
      case Call(action) => UserAct(action);
    }

    /** A command of the user between two events. */
    method Ask(fn: nat, privdata: nat, argv: seq<Bytes>, kind: Kind)
      requires Idle() && !disconnecting && argv != [] && |Wire(argv)| <= INT_MAX
      requires KindOf(argv) == kind && !kind.Unsubscribing?
      modifies this, replies, invalid, replies.repr, invalid.repr
      ensures Idle() && Grown() && !disconnecting && h.log == old(h).log && connected == old(connected)
      ensures ModeOf(NO_CALLBACK) == Asked(old(ModeOf(NO_CALLBACK)), kind, Callback(fn, privdata, 1))
    {
      hide OutputOk, QueuesOk, SubscriptionsOk, FlagsOk, History.Ok, KindOf, Asked;
      var _ := Command(fn, privdata, argv);
    }

    /** What a run of events has come to so far, with the commands and callbacks of before. */
    ghost predicate Accounts(events: seq<Event>, was: seq<seq<Bytes>>, callers: seq<Callback>, special: bool)
      reads `issued, `h, `disconnecting, `freed, `aborted
    {
      !freed && !aborted ==>
      && !disconnecting && issued == was + Orders(events) && (special ==> h.special)
      && (!h.special ==> h.accepted == callers + Callers(events))
    }

    /** One event, and what it adds to the accounts. */
    method Step(events: seq<Event>, i: nat, ghost was: seq<seq<Bytes>>, ghost callers: seq<Callback>, ghost special: bool)
      requires Idle() && i < |events|
      modifies this, replies, invalid, replies.repr, invalid.repr
      ensures Valid() && Grown() && !inCallback && (freed || aborted || Idle())
      ensures quiet && Plain(events[i]) && old(Accounts(events[..i], was, callers, special)) ==>
        Accounts(events[..i + 1], was, callers, special)
      ensures !freed && !aborted ==>
        h.arrived + Brought(connected, events[i + 1..]) == old(h).arrived + Brought(old(connected), events[i..])
    {
      hide Valid, Live, Grown, Orders, Callers, Order, Caller, Plain, Brought, Connects, KindOf;
      IdleIsValid();
      IdleStays();
      OneMore(events, i);
      assert events[i..] == [events[i]] + events[i + 1..];
      BroughtFirst(connected, events[i], events[i + 1..]);
      Handle(events[i]);
    }

    static lemma NoEvents(connected: bool)
      ensures Orders([]) == [] && Callers([]) == [] && Brought(connected, []) == []
    {}

    lemma IdleStays()
      requires Idle()
      ensures !freeing
    {}

    static lemma OneMore(events: seq<Event>, i: nat)
      requires i < |events|
      ensures Orders(events[..i + 1]) == Orders(events[..i]) + Order(events[i])
      ensures Callers(events[..i + 1]) == Callers(events[..i]) + Caller(events[i])
    {
      assert events[..i + 1][..i] == events[..i];
    }

    static lemma BroughtFirst(connected: bool, event: Event, events: seq<Event>)
      ensures Brought(connected, [event] + events)
        == Brought(connected, [event]) + Brought(Connects(connected, event), events)
    {
      assert ([event] + events)[1..] == events && [event][1..] == [];
    }

    /** A whole run: events and calls of the user in any order, while callbacks do what
        they like, until the context has ended. While it goes on, it has taken all replies
        that its connection has brought. If callbacks leave it alone and the user asks for
        nothing but commands that end no subscription, all of these are accepted, in order. */
    method Drive(events: seq<Event>)
      requires Idle()
      modifies this, replies, invalid, replies.repr, invalid.repr
      ensures Valid() && (freed || aborted || Idle())
      ensures !h.special ==> Delivered()
      ensures !freed && !aborted ==> h.arrived == old(h).arrived + Brought(old(connected), events)
      ensures quiet && !old(disconnecting) && (forall i :: 0 <= i < |events| ==> Plain(events[i])) && !freed && !aborted ==>
        && issued == old(issued) + Orders(events)
        && (!h.special ==> h.accepted == old(h).accepted + Callers(events))
    {
      hide Valid, Live, Delivered, Brought, Orders, Callers, Plain;
      IdleIsValid();
      NoEvents(connected);
      ghost var plain := quiet && !disconnecting && forall i :: 0 <= i < |events| ==> Plain(events[i]);
      assert events[0..] == events;
      var i := 0;
      while i < |events| && !freed && !aborted
        invariant i <= |events| && Valid() && Grown() && (freed || aborted || Idle())
        invariant plain ==> Accounts(events[..i], old(issued), old(h).accepted, old(h).special)
        invariant !freed && !aborted ==>
          h.arrived + Brought(connected, events[i..]) == old(h).arrived + Brought(old(connected), events)
      {
        Step(events, i, old(issued), old(h).accepted, old(h).special);
        i := i + 1;
      }
      if !freed && !aborted {
        assert events[..i] == events && events[i..] == [];
        NoEvents(connected);
      }
      if !h.special { IsDelivered(); }
    }

    /** The promise to a context that never subscribes or monitors: the first accepted commands have
        had their callbacks run, each once and in order, the i-th with the i-th reply or,
        when that had not come by the teardown, with NULL; the others are queued, and
        after the teardown there are no others. */
    ghost predicate Delivered()
      reads `h, `freed, `frees, `aborted, `orphaned, replies`contents
    {
      var n := |h.outcomes|;
      && n <= |h.accepted| && h.accepted[n..] == replies.contents
      && h.log == Runs(h.accepted[..n], h.outcomes)
      && (forall i :: 0 <= i < n ==> h.outcomes[i] == if i < |h.arrived| then Some(h.arrived[i]) else None)
      && (frees == 0 && !aborted && !orphaned ==> n == |h.arrived|)
      && (freed ==> n == |h.accepted|)
    }

    /** While the server owes an acknowledgement for a name, the name has its entry, whose
        counter is at least what is owed, and the context counts as subscribed. */
    lemma OwedIsKept(n: Name)
      requires Valid() && ledger.honest && ledger.Owed(n) > 0
      ensures n.text in Tables().Get(n.pattern) && Tables().Get(n.pattern)[n.text].pendingSubs >= ledger.Owed(n)
      ensures subscribed
    {
      assert Covered(Tables(), ledger, n);
    }

    /** Whatever has been sent, a reader of it has whole commands, the first of those that were
        accepted, in order and without an error. A context that never subscribes or monitors
        has one callback for each command, in the same order. */
    lemma SentReads()
      requires Valid()
      ensures ReadAll(sent).replies <= AsReplies(issued) && ReadAll(sent).error == None
      ensures !h.special ==> |h.accepted| == |issued|
    {
      PrefixReads(issued, sent, obuf);
    }

    lemma IsDelivered()
      requires Valid() && !h.special
      ensures Delivered()
    {
      h.Delivered(replies.contents);
      assert h.accepted[|h.outcomes|..] == replies.contents;
    }
  }

  /** A context from its beginning through any run of events. */
  method Session(quiet: bool, events: seq<Event>) returns (ac: AsyncContext)
    ensures ac.Valid() && (ac.freed || ac.aborted || ac.Idle())
    ensures !ac.h.special ==> ac.Delivered()
    ensures !ac.freed && !ac.aborted ==> ac.h.arrived == Brought(false, events)
    ensures quiet && (forall i :: 0 <= i < |events| ==> Plain(events[i])) && !ac.freed && !ac.aborted ==>
      ac.issued == Orders(events) && (!ac.h.special ==> ac.h.accepted == Callers(events))
  {
    hide AsyncContext.Valid, AsyncContext.Idle, AsyncContext.Delivered, Brought, Orders, Callers, Plain;
    ac := new AsyncContext(quiet);
    ac.Drive(events);
  }
}
