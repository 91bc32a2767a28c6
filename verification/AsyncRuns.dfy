/** Whole runs of an asynchronous context (async.c), from a new one on, with callbacks that
    leave it alone: a subscription from its command to its end, a command issued while
    subscribed, and three ways in which a reply goes astray. */
module AsyncRuns {
  import opened Bytes
  import opened Resp
  import opened Callbacks
  import opened AsyncHistory
  import opened Subscriptions
  import opened Dispatching
  import opened Listening
  import opened Monitoring
  import opened Spelling
  import opened Commands
  import opened Numbers
  import opened Async

  method Connected() returns (ac: AsyncContext)
    ensures ac.Idle() && ac.connected && ac.quiet && !ac.disconnecting && ac.h.log == []
    ensures fresh(ac) && fresh(ac.replies) && fresh(ac.invalid) && fresh(ac.replies.repr) && fresh(ac.invalid.repr)
    ensures ac.ModeOf(NO_CALLBACK) == Mode([], [], Tables(map[], map[]), Ledger(map[], map[], true), false, false, NO_CALLBACK)
  {
    hide AsyncContext.Idle;
    ac := new AsyncContext(true);
    ac.HandleWrite(Established, Some(0));
  }

  /** A connected context with one subscription, whose callbacks leave it alone. */
  method Subscribed(a: Bytes, cb: Callback) returns (ac: AsyncContext)
    requires |Wire([SUBSCRIBE, a])| <= INT_MAX && cb.pendingSubs == 1
    ensures ac.Idle() && ac.connected && ac.quiet && !ac.disconnecting && ac.h.log == []
    ensures fresh(ac) && fresh(ac.replies) && fresh(ac.invalid) && fresh(ac.replies.repr) && fresh(ac.invalid.repr)
    ensures ac.ModeOf(NO_CALLBACK) == Mode([], [], Tables(map[a := cb], map[]),
      Ledger(map[], map[], true).Send(Name(false, a)), true, false, NO_CALLBACK)
  {
    hide KindOf, AsyncContext.Idle;
    ac := Connected();
    var names, none: seq<Bytes> := [a], [];
    assert [SUBSCRIBE] + names == [SUBSCRIBE, a] && names[..0] == none;
    SubscribeCommand(names);
    ac.Ask(cb.fn, cb.privdata, [SUBSCRIBE, a], Subscribing(false, names));
    assert Carry(map[], cb, names) == Carry(map[], cb, none).Next(a);
    ghost var ledger := Ledger(map[], map[], true);
    assert ledger.SendAll(false, names) == ledger.SendAll(false, none).Send(Name(false, a));
  }

  function SubscribeWord(pattern: bool): Bytes { if pattern then [LETTER_P] + SUBSCRIBE else SUBSCRIBE }

  function OneEntry(pattern: bool, a: Bytes, cb: Callback): Tables {
    if pattern then Tables(map[], map[a := cb]) else Tables(map[a := cb], map[])
  }

  /** Nothing waits, and these are the subscriptions. */
  predicate Quiet(m: Mode, tables: Tables, subscribed: bool) {
    m.queue == [] && m.invalid == [] && m.tables == tables && m.subscribed == subscribed && !m.monitoring
  }

  lemma OneName(m: Mode, pattern: bool, a: Bytes, cb: Callback)
    requires cb.pendingSubs == 1 && Quiet(m, Tables(map[], map[]), false)
    ensures KindOf([SubscribeWord(pattern), a]) == Subscribing(pattern, [a])
    ensures Quiet(Asked(m, Subscribing(pattern, [a]), cb), OneEntry(pattern, a, cb), true)
  {
    hide KindOf, Spelling.Reads;
    var argv, names, none: seq<Bytes> := [SubscribeWord(pattern), a], [a], [];
    assert argv[1..] == names && names[..0] == none;
    Spelt();
    SpellsReads(SUBSCRIBE, SUBSCRIBE);
    SpellsReads([LETTER_P] + SUBSCRIBE, [LETTER_P] + SUBSCRIBE);
    KindIff(argv);
    assert Carry(map[], cb, names) == Carry(map[], cb, none).Next(a);
  }

  lemma AfterNotice(m: Mode, pattern: bool, a: Bytes, cb: Callback, count: int)
    requires cb.pendingSubs == 1 && Quiet(m, OneEntry(pattern, a, cb), true)
    ensures var p := Replay(m, [NoticeReply(pattern, SUBSCRIBE, a, count)]);
      p.fine && Quiet(Repushed(p.mode).(last := NO_CALLBACK), OneEntry(pattern, a, cb.(pendingSubs := 0)), true)
  {
    hide Dispatch, Taken, NoticeReply, Replay;
    SubscribeNoticeCounts(m, pattern, a, count);
    Single(m, NoticeReply(pattern, SUBSCRIBE, a, count));
  }

  lemma AfterUnsubscribe(m: Mode, pattern: bool, a: Bytes, cb: Callback)
    requires cb.pendingSubs == 0 && Quiet(m, OneEntry(pattern, a, cb), true)
    ensures var p := Replay(m, [NoticeReply(pattern, UNSUBSCRIBE, a, 0)]);
      p.fine && Quiet(Repushed(p.mode).(last := NO_CALLBACK), Tables(map[], map[]), false)
  {
    hide Dispatch, Taken, NoticeReply, Replay;
    UnsubscribeNotice(m, pattern, a, 0);
    Single(m, NoticeReply(pattern, UNSUBSCRIBE, a, 0));
    var none: Table := map[];
    assert map[a := cb] - {a} == none;
  }

  /** One name of either kind, and the notice that answers the command. */
  method Acknowledged(pattern: bool, a: Bytes, cb: Callback, count: int) returns (ac: AsyncContext)
    requires |Wire([SubscribeWord(pattern), a])| <= INT_MAX && cb.pendingSubs == 1
    ensures ac.Idle() && ac.connected && ac.quiet && !ac.disconnecting
    ensures fresh(ac) && fresh(ac.replies) && fresh(ac.invalid) && fresh(ac.replies.repr) && fresh(ac.invalid.repr)
    ensures Quiet(ac.ModeOf(NO_CALLBACK), OneEntry(pattern, a, cb.(pendingSubs := 0)), true)
  {
    hide KindOf, AsyncContext.Idle, Replay, Wire, Repushed, OneEntry, Asked, NoticeReply, SubscribeWord;
    ac := Connected();
    OneName(ac.ModeOf(NO_CALLBACK), pattern, a, cb);
    ac.Ask(cb.fn, cb.privdata, [SubscribeWord(pattern), a], Subscribing(pattern, [a]));
    AfterNotice(ac.ModeOf(NO_CALLBACK), pattern, a, cb, count);
    ac.HandleRead(Established, Data([NoticeReply(pattern, SUBSCRIBE, a, count)], false));
  }

  /** The last unsubscribe notice empties the dictionary and ends the subscribed mode: the
      next command that is none of the special ones waits for its reply in the queue. */
  method UnsubscribeRun(pattern: bool, a: Bytes, cb: Callback, count: int, argv: seq<Bytes>, later: Callback)
    returns (ac: AsyncContext)
    requires |Wire([SubscribeWord(pattern), a])| <= INT_MAX && cb.pendingSubs == 1 && later.pendingSubs == 1
    requires argv != [] && |Wire(argv)| <= INT_MAX && KindOf(argv).Other?
    ensures ac.Idle() && !ac.subscribed && ac.channels == map[] && ac.patterns == map[]
    ensures ac.replies.contents == [later] && ac.invalid.contents == []
  {
    hide KindOf, AsyncContext.Idle, Replay, Wire, Repushed, OneEntry, NoticeReply, SubscribeWord;
    ac := Acknowledged(pattern, a, cb, count);
    AfterUnsubscribe(ac.ModeOf(NO_CALLBACK), pattern, a, cb.(pendingSubs := 0));
    ac.HandleRead(Established, Data([NoticeReply(pattern, UNSUBSCRIBE, a, 0)], false));
    ac.Ask(later.fn, later.privdata, argv, Other);
    assert ac.ModeOf(NO_CALLBACK).tables == Tables(map[], map[]);
  }

  /** A command issued while subscribed has its callback run with the next reply that is no
      array. */
  method InvalidRun(a: Bytes, cb: Callback, argv: seq<Bytes>, other: Callback, reply: Reply) returns (ac: AsyncContext)
    requires |Wire([SUBSCRIBE, a])| <= INT_MAX && cb.pendingSubs == 1 && other.pendingSubs == 1 && other.fn != NO_FUNCTION
    requires argv != [] && |Wire(argv)| <= INT_MAX && KindOf(argv).Other? && !reply.Array? && !reply.Error?
    ensures ac.Idle() && ac.h.log == [Run(other, Some(reply), Invalid)] && ac.invalid.contents == []
  {
    hide KindOf, AsyncContext.Idle, Replay, Wire;
    ac := Subscribed(a, cb);
    ac.Ask(other.fn, other.privdata, argv, Other);
    ghost var m := ac.ModeOf(NO_CALLBACK);
    OtherReply(m, reply);
    Single(m, reply);
    ac.HandleRead(Established, Data([reply], false));
  }

  /** A message on the subscribed channel and one on another channel arrive together: the
      callback runs twice, the second time with a reply that is not its own. */
  method StaleRun(a: Bytes, b: Bytes, x: Bytes, y: Bytes, cb: Callback) returns (ac: AsyncContext)
    requires |Wire([SUBSCRIBE, a])| <= INT_MAX && cb.pendingSubs == 1 && cb.fn != NO_FUNCTION && a != b
    ensures ac.Idle()
    ensures ac.h.log == [Run(cb, Some(MessageOn(a, x)), Subscription), Run(cb, Some(MessageOn(b, y)), Stale)]
  {
    hide AsyncContext.Idle, Replay;
    ac := Subscribed(a, cb);
    TwoMessages(ac.ModeOf(NO_CALLBACK), a, b, x, y);
    var first, second := MessageOn(a, x), MessageOn(b, y);
    ac.HandleRead(Established, Data([first, second], false));
  }

  /** One subscription and a batch of messages: no callback runs for a message that is not its
      own, if and only if no message of another channel comes after one of this channel. */
  method Listen(a: Bytes, cb: Callback, batch: seq<Reply>) returns (ac: AsyncContext)
    requires |Wire([SUBSCRIBE, a])| <= INT_MAX && cb.pendingSubs == 1 && cb.fn != NO_FUNCTION && AllMessages(batch)
    ensures ac.Idle()
    ensures NoneStale(ac.h.log) <==> UnknownFirst(Tables(map[a := cb], map[]), batch)
  {
    hide AsyncContext.Idle, Replay, AllMessages, NoneStale, UnknownFirst;
    ac := Subscribed(a, cb);
    ghost var m := ac.ModeOf(NO_CALLBACK);
    NoneStaleIff(m, batch);
    OrderDecides(m, batch);
    ac.HandleRead(Established, Data(batch, false));
    assert ac.h.log == Replay(m, batch).runs;
  }

  /** One subscribe command and two notices for it, then a command for the same name and a
      new one: the new name has a counter of zero while its notice is owed. */
  method UncoveredRun(a: Bytes, b: Bytes, cb: Callback) returns (ac: AsyncContext)
    requires |Wire([SUBSCRIBE, a])| <= INT_MAX && |Wire([SUBSCRIBE, a, b])| <= INT_MAX && cb.pendingSubs == 1 && a != b
    ensures ac.Idle() && ac.subscribed && b in ac.channels
    ensures ac.channels[b].pendingSubs == 0 && ac.ledger.Owed(Name(false, b)) == 1
  {
    hide AsyncContext.Idle, Replay, KindOf;
    ac := Subscribed(a, cb);
    TwoNotices(ac.ModeOf(NO_CALLBACK), a, 1, 1);
    ac.HandleRead(Established, Data([SubscribeNotice(a, 1), SubscribeNotice(a, 1)], false));
    assert ac.channels == map[a := cb.(pendingSubs := -1)];
    var names := [a, b];
    assert [SUBSCRIBE] + names == [SUBSCRIBE, a, b];
    SubscribeCommand(names);
    UnowedNoticeUncovers(a, b, cb);
    ac.Ask(cb.fn, cb.privdata, [SUBSCRIBE, a, b], Subscribing(false, names));
  }

  /** One read, with others to follow. */
  method Read(ac: AsyncContext, batch: seq<Reply>, ghost rest: seq<seq<Reply>>)
    requires ac.Idle() && ac.connected && ac.quiet && !ac.disconnecting
    requires Batches(ac.ModeOf(NO_CALLBACK), [batch] + rest).fine
    modifies ac, ac.replies, ac.invalid, ac.replies.repr, ac.invalid.repr
    ensures ac.Idle() && ac.connected && !ac.disconnecting && ac.Grown()
    ensures Batches(ac.ModeOf(NO_CALLBACK), rest).fine
    ensures ac.h.log + Batches(ac.ModeOf(NO_CALLBACK), rest).runs
      == old(ac.h).log + Batches(old(ac.ModeOf(NO_CALLBACK)), [batch] + rest).runs
  {
    hide AsyncContext.Idle, Replay, Batches;
    BatchesSome(ac.ModeOf(NO_CALLBACK), batch, rest, ac.h.log);
    ac.HandleRead(Established, Data(batch, false));
  }

  /** One read after another. */
  method Reads(ac: AsyncContext, batches: seq<seq<Reply>>)
    requires ac.Idle() && ac.connected && ac.quiet && !ac.disconnecting
    requires Batches(ac.ModeOf(NO_CALLBACK), batches).fine
    modifies ac, ac.replies, ac.invalid, ac.replies.repr, ac.invalid.repr
    ensures ac.Idle() && ac.h.log == old(ac.h).log + Batches(old(ac.ModeOf(NO_CALLBACK)), batches).runs
  {
    hide AsyncContext.Idle, Replay, Batches;
    ghost var runs := Batches(ac.ModeOf(NO_CALLBACK), batches).runs;
    assert batches[0..] == batches;
    for i := 0 to |batches|
      invariant ac.Idle() && ac.connected && !ac.disconnecting && ac.Grown()
      invariant Batches(ac.ModeOf(NO_CALLBACK), batches[i..]).fine
      invariant ac.h.log + Batches(ac.ModeOf(NO_CALLBACK), batches[i..]).runs == old(ac.h).log + runs
    {
      assert batches[i..] == [batches[i]] + batches[i + 1..];
      Read(ac, batches[i], batches[i + 1..]);
    }
    NoBatches(ac.ModeOf(NO_CALLBACK), batches[|batches|..]);
  }

  lemma NoBatches(m: Mode, none: seq<seq<Reply>>)
    requires none == []
    ensures Batches(m, none).runs == []
  {}

  /** A monitor command and any reads after it: every line reaches the callback of the
      command, if and only if at most one line comes after the first read that brings no
      complete one. */
  method Watch(fn: nat, privdata: nat, argv: seq<Bytes>, batches: seq<seq<Reply>>) returns (ac: AsyncContext)
    requires argv != [] && |Wire(argv)| <= INT_MAX && KindOf(argv).Monitoring?
    requires fn != NO_FUNCTION && NoErrors(Lines(batches))
    ensures ac.Idle()
    ensures Told(ac.h.log, Callback(fn, privdata, 1), Lines(batches)) <==> AfterGap(batches) <= 1
  {
    hide KindOf, AsyncContext.Idle, Batches, Told, Lines, AfterGap, NoErrors;
    ac := Connected();
    ac.Ask(fn, privdata, argv, Kind.Monitoring);
    ghost var m := ac.ModeOf(NO_CALLBACK);
    WatchingGoesOn(m, batches);
    EveryLineIff(m, Callback(fn, privdata, 1), batches);
    Reads(ac, batches);
    assert ac.h.log == Batches(m, batches).runs;
  }
}
