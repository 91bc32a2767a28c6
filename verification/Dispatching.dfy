/** Which callback a reply finds (async.c), as a function of the queues, the dictionaries and
    the callback that the reply before it has found. */
module Dispatching {
  import opened Bytes
  import opened Resp
  import opened Callbacks
  import opened AsyncHistory
  import opened Subscriptions

  // The callback variable before the first reply.
  const NO_CALLBACK := Callback(NO_FUNCTION, 0, 0)

  /** What an accepted command does to the history, given whether the context is subscribed. */
  function Recorded(h: History, kind: Kind, cb: Callback, subscribed: bool): History {
    match kind
    case Subscribing(_, _) => h.(special := true)
    case Unsubscribing => h
    case Monitoring => h.(special := true).Accept(cb)
    case Other => if subscribed then h else h.Accept(cb)
  }

  /** What decides where a reply goes. `last` is the callback that was found before. */
  datatype Mode = Mode(queue: seq<Callback>, invalid: seq<Callback>, tables: Tables, ledger: Ledger,
                       subscribed: bool, monitoring: bool, last: Callback)

  /** The mode after a reply, with the callback found as `last`, and where it was found. */
  datatype Dispatched = Dispatched(mode: Mode, source: Source)

  /** An accepted command: a subscription enters its names, and any other command that gets
      a reply of its own waits for it. */
  ghost function Asked(m: Mode, kind: Kind, cb: Callback): Mode {
    match kind
    case Subscribing(pattern, names) =>
      m.(tables := m.tables.Set(pattern, Carry(m.tables.Get(pattern), cb, names).table),
         ledger := m.ledger.SendAll(pattern, names), subscribed := true)
    case Unsubscribing => m
    case Monitoring => m.(queue := m.queue + [cb], monitoring := true)
    case Other => if m.subscribed then m.(invalid := m.invalid + [cb]) else m.(queue := m.queue + [cb])
  }

  /** A reply in a subscribed context with an empty queue. A message or a notice finds the
      callback of its name, any other reply that of a command issued while subscribed. When
      there is none, the callback stays the one of an earlier reply. */
  function DispatchNotice(m: Mode, reply: Reply): Dispatched {
    match NoticeOf(reply)
    case Misshapen => Dispatched(m, Stale)
    case NoNotice =>
      if m.invalid == [] then Dispatched(m, Stale)
      else Dispatched(m.(invalid := m.invalid[1..], last := m.invalid[0]), Invalid)
    case Notice(pattern, word, name, left) =>
      var n := Name(pattern, name);
      var ledger := if word == SUBSCRIBE then m.ledger.Acknowledge(n) else m.ledger;
      if name !in m.tables.Get(pattern) then Dispatched(m.(ledger := ledger), Stale)
      else
        var tables := Counted(m.tables, n, word);
        var counted := m.(tables := tables, ledger := ledger, last := tables.Get(pattern)[name]);
        Dispatched(if word == UNSUBSCRIBE then TakeOff(counted, n, left) else counted, Subscription)
  }

  function TakeOff(m: Mode, n: Name, left: Option<int>): Mode
    requires n.text in m.tables.Get(n.pattern)
  {
    var tables := Removed(m.tables, n);
    m.(tables := tables, subscribed := m.subscribed && !(left == Some(0) && tables == Tables(map[], map[])))
  }

  function Dispatch(m: Mode, reply: Reply): Dispatched {
    if m.queue != [] then Dispatched(m.(queue := m.queue[1..], last := m.queue[0]), Regular)
    else if m.subscribed then DispatchNotice(m, reply)
    else Dispatched(m, Stale)
  }

  /** The assertions on a notice: its first two elements are strings, and the third of an
      unsubscribe notice for a known name is an integer. */
  predicate Fails(m: Mode, reply: Reply) {
    match NoticeOf(reply)
    case Misshapen => true
    case NoNotice => false
    case Notice(pattern, word, name, left) => word == UNSUBSCRIBE && left == None && name in m.tables.Get(pattern)
  }

  /** The reply has somewhere to go, and no assertion fails on the way. */
  predicate Taken(m: Mode, reply: Reply) {
    m.queue != [] || (!reply.Error? && if m.subscribed then !Fails(m, reply) else m.monitoring)
  }

  /** A callback found, and where. */
  datatype Finding = Finding(cb: Callback, source: Source)

  function RunOf(f: Finding, reply: Reply): seq<Run> {
    if f.cb.fn == NO_FUNCTION then [] else [Run(f.cb, Some(reply), f.source)]
  }

  /** The runs of the callbacks found, each with its reply. */
  ghost function Served(found: seq<Finding>, replies: seq<Reply>): seq<Run>
    requires |found| == |replies|
  {
    if found == [] then []
    else
      var n := |found| - 1;
      Served(found[..n], replies[..n]) + RunOf(found[n], replies[n])
  }

  lemma ServedSnoc(found: seq<Finding>, replies: seq<Reply>, f: Finding, reply: Reply)
    requires |found| == |replies|
    ensures Served(found + [f], replies + [reply]) == Served(found, replies) + RunOf(f, reply)
  {
    assert (found + [f])[..|found|] == found && (replies + [reply])[..|found|] == replies;
  }

  function LastOf(found: seq<Finding>): Callback {
    if found == [] then NO_CALLBACK else found[|found| - 1].cb
  }

  /** A stale callback is the one that the reply before it has found. */
  ghost predicate StaleRepeats(found: seq<Finding>) {
    forall k :: 0 <= k < |found| && found[k].source == Stale ==> found[k].cb == LastOf(found[..k])
  }

  lemma StaleRepeatsSnoc(found: seq<Finding>, f: Finding)
    requires StaleRepeats(found) && (f.source == Stale ==> f.cb == LastOf(found))
    ensures StaleRepeats(found + [f])
  {
    forall k | 0 <= k < |found + [f]| && (found + [f])[k].source == Stale
      ensures (found + [f])[k].cb == LastOf((found + [f])[..k])
    {
      assert (found + [f])[..k] == found[..k];
      assert found[..|found|] == found;
    }
  }

  /** How far a batch of replies `in0` has come since the history was `h0`: the callbacks
      found, one for each reply taken, and no runs but theirs. */
  ghost predicate Progress(h: History, h0: History, in0: seq<Reply>, left: seq<Reply>, found: seq<Finding>,
                           taken: seq<Reply>)
  {
    && |found| == |taken| && StaleRepeats(found)
    && h.arrived == h0.arrived + taken && taken + left == in0
    && h.log == h0.log + Served(found, taken)
    && h0.accepted <= h.accepted && h0.answers <= h.answers
  }

  /** What is known of a batch also when the context has ended in the middle of it. */
  ghost predicate Sofar(h: History, freed: bool, left: seq<Reply>, h0: History, in0: seq<Reply>, found: seq<Finding>,
                        taken: seq<Reply>)
  {
    && |found| == |taken| && StaleRepeats(found)
    && h.arrived + left == h0.arrived + in0 && h0.arrived + taken <= h.arrived
    && h0.log + Served(found, taken) <= h.log
    && (!freed ==> h.log == h0.log + Served(found, taken))
    && h0.accepted <= h.accepted && h0.answers <= h.answers
  }

  /** One round of the loop, on the accounts: the reply has found a callback. */
  lemma Advance(h1: History, h2: History, freed: bool, h0: History, in0: seq<Reply>, left: seq<Reply>,
                found: seq<Finding>, taken: seq<Reply>, f: Finding, m: Mode, reply: Reply)
    requires Progress(h1, h0, in0, [reply] + left, found, taken) && m.last == LastOf(found)
    requires f == Finding(Dispatch(m, reply).mode.last, Dispatch(m, reply).source)
    requires h2.arrived == h1.arrived + [reply] && h1.accepted <= h2.accepted && h1.answers <= h2.answers
    requires h1.log + RunOf(f, reply) <= h2.log && (!freed ==> h2.log == h1.log + RunOf(f, reply))
    ensures LastOf(found + [f]) == f.cb
    ensures Sofar(h2, freed, left, h0, in0, found + [f], taken + [reply])
    ensures !freed ==> Progress(h2, h0, in0, left, found + [f], taken + [reply])
  {
    hide Dispatch, StaleRepeats, RunOf, Served;
    StaleIsLast(m, reply);
    StaleRepeatsSnoc(found, f);
    ServedSnoc(found, taken, f, reply);
    assert taken + [reply] + left == taken + ([reply] + left);
    assert h0.log + Served(found, taken) + RunOf(f, reply) == h0.log + Served(found + [f], taken + [reply]);
    assert h0.arrived + taken + [reply] + left == h0.arrived + (taken + [reply] + left);
    assert h0.arrived + taken + [reply] == h0.arrived + (taken + [reply]);
  }

  /** The reply has found none, and the context is at its end. */
  lemma Stop(h1: History, h2: History, freed: bool, h0: History, in0: seq<Reply>, left: seq<Reply>,
             found: seq<Finding>, taken: seq<Reply>, reply: Reply)
    requires Progress(h1, h0, in0, [reply] + left, found, taken)
    requires h2.arrived == h1.arrived + [reply] && h1.accepted <= h2.accepted && h1.answers <= h2.answers
    requires h1.log <= h2.log && (!freed ==> h2.log == h1.log)
    ensures Sofar(h2, freed, left, h0, in0, found, taken)
  {
    hide StaleRepeats, Served;
    assert h0.arrived + taken + [reply] + left == h0.arrived + (taken + ([reply] + left));
  }

  lemma StaleIsLast(m: Mode, reply: Reply)
    ensures Dispatch(m, reply).source == Stale ==> Dispatch(m, reply).mode.last == m.last
  {}

  /** At the end of a batch, in monitor mode, the last callback is queued again. */
  function Repushed(m: Mode): Mode {
    if m.monitoring then m.(queue := m.queue + [m.last]) else m
  }

  /** What a list of replies comes to when the callbacks leave the context alone: the mode
      after it, the runs, and whether every reply has somewhere to go. */
  datatype Played = Played(mode: Mode, runs: seq<Run>, fine: bool)

  ghost function Replay(m: Mode, replies: seq<Reply>): Played
    decreases |replies|
  {
    if replies == [] then Played(m, [], true)
    else
      var d := Dispatch(m, replies[0]);
      var rest := Replay(d.mode, replies[1..]);
      Played(rest.mode, RunOf(Finding(d.mode.last, d.source), replies[0]) + rest.runs, Taken(m, replies[0]) && rest.fine)
  }

  lemma NothingServed()
    ensures Served([], []) == [] && StaleRepeats([])
  {}

  lemma ReplayNone(m: Mode)
    ensures Replay(m, []) == Played(m, [], true)
  {}

  lemma ReplaySome(m: Mode, reply: Reply, more: seq<Reply>, log: seq<Run>)
    ensures var d := Dispatch(m, reply);
      var all, rest := Replay(m, [reply] + more), Replay(d.mode, more);
      && all.mode == rest.mode && all.fine == (Taken(m, reply) && rest.fine)
      && log + all.runs == log + RunOf(Finding(d.mode.last, d.source), reply) + rest.runs
  {
    hide Dispatch, Taken, RunOf;
    assert ([reply] + more)[1..] == more;
  }

  /** Two messages in a subscribed context, the first for a known name and the second for
      an unknown one: the callback of the first runs for both. */
  lemma TwoMessages(m: Mode, a: Bytes, b: Bytes, x: Bytes, y: Bytes)
    requires m.queue == [] && m.subscribed
    requires a in m.tables.channels && b !in m.tables.channels && m.tables.channels[a].fn != NO_FUNCTION
    ensures var first, second, cb := MessageOn(a, x), MessageOn(b, y), m.tables.channels[a];
      Replay(m, [first, second])
      == Played(m.(last := cb), [Run(cb, Some(first), Subscription), Run(cb, Some(second), Stale)], true)
  {
    hide NoticeOf;
    var first, second, cb := MessageOn(a, x), MessageOn(b, y), m.tables.channels[a];
    NoticesRead(a, x, 0);
    NoticesRead(b, y, 0);
    var after := m.(last := cb);
    assert MESSAGE != SUBSCRIBE && MESSAGE != UNSUBSCRIBE by { assert |MESSAGE| == 7 && |SUBSCRIBE| == 9; }
    assert Dispatch(m, first) == Dispatched(after, Subscription);
    assert Dispatch(after, second) == Dispatched(after, Stale);
    Pair(m, first, second);
  }

  /** Two subscribe notices for a known name. */
  lemma TwoNotices(m: Mode, a: Bytes, i: int, j: int)
    requires m.queue == [] && m.subscribed && a in m.tables.channels
    ensures var n, cb := Name(false, a), m.tables.channels[a];
      var p := Replay(m, [SubscribeNotice(a, i), SubscribeNotice(a, j)]);
      && p.fine && p.mode.subscribed && p.mode.queue == m.queue && p.mode.invalid == m.invalid
      && p.mode.tables == m.tables.Set(false, m.tables.channels[a := cb.(pendingSubs := cb.pendingSubs - 2)])
      && p.mode.ledger == m.ledger.Acknowledge(n).Acknowledge(n)
  {
    hide Dispatch, Taken;
    var first := Dispatch(m, SubscribeNotice(a, i)).mode;
    OneNotice(m, a, i);
    OneNotice(first, a, j);
    assert first.tables.channels[a := m.tables.channels[a].(pendingSubs := m.tables.channels[a].pendingSubs - 2)]
      == m.tables.channels[a := m.tables.channels[a].(pendingSubs := m.tables.channels[a].pendingSubs - 2)];
    Pair(m, SubscribeNotice(a, i), SubscribeNotice(a, j));
  }

  lemma OneNotice(m: Mode, a: Bytes, i: int)
    requires m.queue == [] && m.subscribed && a in m.tables.channels
    ensures var cb := m.tables.channels[a].(pendingSubs := m.tables.channels[a].pendingSubs - 1);
      && Taken(m, SubscribeNotice(a, i))
      && Dispatch(m, SubscribeNotice(a, i)).mode
         == m.(tables := Tables(m.tables.channels[a := cb], m.tables.patterns),
               ledger := m.ledger.Acknowledge(Name(false, a)), last := cb)
  {
    hide NoticeOf;
    NoticesRead(a, [], i);
    assert SUBSCRIBE != UNSUBSCRIBE by { assert |SUBSCRIBE| == 9; }
  }

  /** An unsubscribe notice for a name with an entry: the entry goes when no acknowledgement is
      due for it, and the subscribed mode ends with the last entry, if the server counts no
      subscription either. */
  lemma UnsubscribeNotice(m: Mode, pattern: bool, name: Bytes, left: int)
    requires m.queue == [] && m.subscribed && name in m.tables.Get(pattern)
    ensures var reply := NoticeReply(pattern, UNSUBSCRIBE, name, left);
      var d := Dispatch(m, reply);
      && Taken(m, reply) && d.source == Subscription && d.mode.last == m.tables.Get(pattern)[name]
      && d.mode.queue == m.queue && d.mode.invalid == m.invalid && d.mode.ledger == m.ledger
      && d.mode.monitoring == m.monitoring
      && d.mode.tables.Get(!pattern) == m.tables.Get(!pattern)
      && d.mode.tables.Get(pattern)
        == (if m.tables.Get(pattern)[name].pendingSubs == 0 then m.tables.Get(pattern) - {name} else m.tables.Get(pattern))
      && (d.mode.subscribed <==> !(left == 0 && d.mode.tables.channels == map[] && d.mode.tables.patterns == map[]))
  {
    hide NoticeOf;
    NoticeReplyReads(pattern, UNSUBSCRIBE, name, left);
    assert SUBSCRIBE != UNSUBSCRIBE by { assert |SUBSCRIBE| == 9; }
  }

  /** A subscribe notice: one off the counter of its entry, if there is one. */
  lemma SubscribeNoticeCounts(m: Mode, pattern: bool, name: Bytes, count: int)
    requires m.queue == [] && m.subscribed && name in m.tables.Get(pattern)
    ensures var reply := NoticeReply(pattern, SUBSCRIBE, name, count);
      var d, cb := Dispatch(m, reply), m.tables.Get(pattern)[name];
      var after := cb.(pendingSubs := cb.pendingSubs - 1);
      && Taken(m, reply) && d.source == Subscription && d.mode.last == after
      && d.mode.queue == m.queue && d.mode.invalid == m.invalid && d.mode.subscribed
      && d.mode.monitoring == m.monitoring && d.mode.ledger == m.ledger.Acknowledge(Name(pattern, name))
      && d.mode.tables.Get(!pattern) == m.tables.Get(!pattern)
      && d.mode.tables.Get(pattern) == m.tables.Get(pattern)[name := after]
  {
    hide NoticeOf;
    NoticeReplyReads(pattern, SUBSCRIBE, name, count);
    assert SUBSCRIBE != UNSUBSCRIBE by { assert |SUBSCRIBE| == 9; }
  }

  /** A reply that is no array is for the oldest command issued while subscribed. */
  lemma OtherReply(m: Mode, reply: Reply)
    requires m.queue == [] && m.subscribed && m.invalid != [] && !reply.Array? && !reply.Error?
    ensures Taken(m, reply)
    ensures Dispatch(m, reply) == Dispatched(m.(invalid := m.invalid[1..], last := m.invalid[0]), Invalid)
  {}

  lemma Single(m: Mode, reply: Reply)
    ensures var d := Dispatch(m, reply);
      Replay(m, [reply]) == Played(d.mode, RunOf(Finding(d.mode.last, d.source), reply), Taken(m, reply))
  {
    hide Dispatch, Taken, RunOf;
    var none, one: seq<Reply> := [], [reply];
    assert one[1..] == none;
    var d := Dispatch(m, reply);
    var r := RunOf(Finding(d.mode.last, d.source), reply);
    assert Replay(d.mode, none) == Played(d.mode, [], true) && r + [] == r;
  }

  lemma Pair(m: Mode, first: Reply, second: Reply)
    ensures var d := Dispatch(m, first);
      var e := Dispatch(d.mode, second);
      Replay(m, [first, second])
      == Played(e.mode, RunOf(Finding(d.mode.last, d.source), first) + RunOf(Finding(e.mode.last, e.source), second),
                Taken(m, first) && Taken(d.mode, second))
  {
    hide Dispatch, Taken, RunOf;
    var none, one, two: seq<Reply> := [], [second], [first, second];
    assert two[1..] == one && one[1..] == none;
    var d := Dispatch(m, first);
    var e := Dispatch(d.mode, second);
    var r := RunOf(Finding(e.mode.last, e.source), second);
    assert r + [] == r;
    assert Replay(e.mode, none) == Played(e.mode, [], true);
    assert Replay(d.mode, one) == Played(e.mode, r, Taken(d.mode, second));
  }
}
