/** What has happened in an asynchronous context, and what of it must stay true (async.c):
    which commands were accepted, which replies came, which callbacks ran. */
module AsyncHistory {
  import opened Bytes
  import opened Resp
  import opened Callbacks

  // Where the callback of a run came from: the queue of regular replies, the queue of
  // commands issued while subscribed, a subscription, or a variable not set this time.
  datatype Source = Regular | Invalid | Subscription | Stale

  datatype Run = Run(cb: Callback, reply: Option<Reply>, source: Source)

  /** The runs that a list of callbacks calls for, given what each one's reply is. */
  ghost function Runs(cbs: seq<Callback>, replies: seq<Option<Reply>>): seq<Run>
    requires |cbs| == |replies|
  {
    if cbs == [] then []
    else
      var n := |cbs| - 1;
      Runs(cbs[..n], replies[..n]) + (if cbs[n].fn == NO_FUNCTION then [] else [Run(cbs[n], replies[n], Regular)])
  }

  /** When all callbacks are set, each runs, in order and with its own reply. */
  lemma {:induction false} RunsAre(cbs: seq<Callback>, replies: seq<Option<Reply>>)
    requires |cbs| == |replies| && forall i :: 0 <= i < |cbs| ==> cbs[i].fn != 0
    ensures |Runs(cbs, replies)| == |cbs|
    ensures forall i :: 0 <= i < |cbs| ==> Runs(cbs, replies)[i] == Run(cbs[i], replies[i], Regular)
    decreases |cbs|
  {
    if cbs != [] { RunsAre(cbs[..|cbs| - 1], replies[..|cbs| - 1]); }
  }

  /** One that is not set takes its reply and does not run. */
  lemma {:induction false} UnsetRunsNothing(cbs: seq<Callback>, replies: seq<Option<Reply>>, i: nat)
    requires i < |cbs| == |replies| && cbs[i].fn == 0
    ensures Runs(cbs, replies) == Runs(cbs[..i] + cbs[i + 1..], replies[..i] + replies[i + 1..])
    decreases |cbs|
  {
    var n := |cbs| - 1;
    var fewer, left := cbs[..i] + cbs[i + 1..], replies[..i] + replies[i + 1..];
    if i == n {
      assert fewer == cbs[..n] && left == replies[..n];
    } else {
      UnsetRunsNothing(cbs[..n], replies[..n], i);
      assert fewer[..n - 1] == cbs[..n][..i] + cbs[..n][i + 1..];
      assert left[..n - 1] == replies[..n][..i] + replies[..n][i + 1..];
    }
  }

  ghost function RegularRuns(log: seq<Run>): seq<Run> {
    if log == [] then []
    else
      var n := |log| - 1;
      RegularRuns(log[..n]) + if log[n].source == Regular then [log[n]] else []
  }

  lemma {:induction false} AllRegular(log: seq<Run>)
    requires forall i :: 0 <= i < |log| ==> log[i].source == Regular
    ensures RegularRuns(log) == log
  {
    if log != [] {
      AllRegular(log[..|log| - 1]);
      assert log == log[..|log| - 1] + [log[|log| - 1]];
    }
  }

  /** The runs of a teardown: each callback once, with NULL. */
  ghost function Nulls(cbs: seq<Callback>, source: Source): seq<Run> {
    if cbs == [] then []
    else
      var n := |cbs| - 1;
      Nulls(cbs[..n], source) + if cbs[n].fn == NO_FUNCTION then [] else [Run(cbs[n], None, source)]
  }

  /** They are the runs with NULL. */
  lemma {:induction false} NullsAre(cbs: seq<Callback>, source: Source)
    requires forall i :: 0 <= i < |cbs| ==> cbs[i].fn != 0
    ensures |Nulls(cbs, source)| == |cbs|
    ensures forall i :: 0 <= i < |cbs| ==> Nulls(cbs, source)[i] == Run(cbs[i], None, source)
    decreases |cbs|
  {
    if cbs != [] { NullsAre(cbs[..|cbs| - 1], source); }
  }

  lemma NullsSnoc(cbs: seq<Callback>, cb: Callback, source: Source, log: seq<Run>)
    ensures log + Nulls(cbs + [cb], source) ==
      log + Nulls(cbs, source) + if cb.fn == NO_FUNCTION then [] else [Run(cb, None, source)]
  {
    assert (cbs + [cb])[..|cbs|] == cbs;
  }

  /** Every name of a table, once. */
  ghost predicate Lists<V>(names: seq<Bytes>, table: map<Bytes, V>) {
    && (forall i, j :: 0 <= i < j < |names| ==> names[i] != names[j])
    && (forall n :: n in names <==> n in table)
  }

  ghost function Entries(table: map<Bytes, Callback>, names: seq<Bytes>): (r: seq<Callback>)
    requires forall n :: n in names ==> n in table
    ensures |r| == |names| && forall i :: 0 <= i < |r| ==> r[i] == table[names[i]]
  {
    seq(|names|, i requires 0 <= i < |names| => table[names[i]])
  }

  datatype History = History(
    accepted: seq<Callback>,          // of regular commands, in order of acceptance
    outcomes: seq<Option<Reply>>,     // what the first of them have got: a reply, or NULL
    answers: seq<Reply>,              // the replies that answered regular commands
    arrived: seq<Reply>,              // the replies taken from the reader
    log: seq<Run>,                    // the callbacks run
    special: bool)                    // whether a subscription or monitor mode was ever asked for
  {
    /** The reply of the i-th accepted command is the i-th answer, or NULL. */
    ghost predicate OutcomesOk() {
      && |answers| <= |outcomes| <= |accepted|
      && forall i :: 0 <= i < |outcomes| ==> outcomes[i] == if i < |answers| then Some(answers[i]) else None
    }

    /** Exactly the first accepted commands have been served, once each and in order, and
        the others are queued. */
    ghost predicate Fifo(queued: seq<Callback>) {
      && OutcomesOk()
      && accepted == accepted[..|outcomes|] + queued
      && RegularRuns(log) == Runs(accepted[..|outcomes|], outcomes)
    }

    /** Without those there are no other runs, and the answers are the replies that
        arrived, of which none came too late. */
    ghost predicate Plain() {
      && !special
      && answers <= arrived && (|answers| < |outcomes| ==> answers == arrived)
      && forall i :: 0 <= i < |log| ==> log[i].source == Regular
    }

    ghost predicate Ok(queued: seq<Callback>) {
      Fifo(queued) && (!special ==> Plain())
    }

    /** The same replies have been taken and given. */
    ghost predicate SameReplies(before: History) {
      && outcomes == before.outcomes && answers == before.answers && arrived == before.arrived
      && (before.special ==> special)
    }

    function Accept(cb: Callback): History { this.(accepted := accepted + [cb]) }

    function Arrive(reply: Reply): History { this.(arrived := arrived + [reply]) }

    function Answer(reply: Reply): History {
      this.(outcomes := outcomes + [Some(reply)], answers := answers + [reply], arrived := arrived + [reply])
    }

    function GiveUp(): History { this.(outcomes := outcomes + [None]) }

    function Ran(cb: Callback, reply: Option<Reply>, source: Source): History {
      if cb.fn == NO_FUNCTION then this else this.(log := log + [Run(cb, reply, source)])
    }

    lemma AcceptOk(queued: seq<Callback>, cb: Callback)
      requires Ok(queued)
      ensures Accept(cb).Ok(queued + [cb])
    {
      assert Accept(cb).accepted[..|outcomes|] == accepted[..|outcomes|];
    }

    /** The callback at the head of the queue gets its reply. */
    lemma ServeOk(queued: seq<Callback>, next: History, outcome: Option<Reply>)
      requires Fifo(queued) && queued != [] && next.OutcomesOk()
      requires next.accepted == accepted && next.outcomes == outcomes + [outcome] && next.log == log
      ensures next.Ran(queued[0], outcome, Regular).Fifo(queued[1..])
    {
      var cb, n := queued[0], |outcomes|;
      var after := next.Ran(cb, outcome, Regular);
      assert accepted[n] == cb;
      assert accepted[..n + 1] == accepted[..n] + [cb];
      assert accepted == accepted[..n + 1] + queued[1..];
      assert accepted[..n + 1][..n] == accepted[..n] && next.outcomes[..n] == outcomes;
      if cb.fn != NO_FUNCTION { assert after.log[..|log|] == log; }
    }

    lemma AnswerOk(queued: seq<Callback>, reply: Reply)
      requires Ok(queued) && queued != [] && |answers| == |outcomes|
      requires !special ==> answers == arrived
      ensures Answer(reply).Ran(queued[0], Some(reply), Regular).Ok(queued[1..])
    {
      assert |accepted| > |outcomes|;
      ServeOk(queued, Answer(reply), Some(reply));
    }

    lemma GiveUpOk(queued: seq<Callback>)
      requires Ok(queued) && queued != [] && (!special ==> answers == arrived)
      ensures GiveUp().Ran(queued[0], None, Regular).Ok(queued[1..])
    {
      assert |accepted| > |outcomes|;
      ServeOk(queued, GiveUp(), None);
    }

    /** A reply that answers no regular command. */
    lemma ArriveOk(queued: seq<Callback>, reply: Reply)
      requires Ok(queued) && |answers| == |outcomes|
      ensures Arrive(reply).Ok(queued)
    {}

    /** A run that answers no regular command. */
    lemma OtherOk(queued: seq<Callback>, cb: Callback, reply: Option<Reply>, source: Source)
      requires Ok(queued) && special && source != Regular
      ensures Ran(cb, reply, source).Ok(queued)
    {
      if cb.fn != NO_FUNCTION { assert Ran(cb, reply, source).log[..|log|] == log; }
    }

    /** The runs of a context that never subscribed or monitored: the i-th accepted command got the i-th
        reply that arrived, or NULL, each exactly once and in order. */
    lemma Delivered(queued: seq<Callback>)
      requires Ok(queued) && !special
      ensures |outcomes| <= |accepted| && accepted == accepted[..|outcomes|] + queued
      ensures log == Runs(accepted[..|outcomes|], outcomes)
      ensures forall i :: 0 <= i < |outcomes| ==> outcomes[i] == if i < |arrived| then Some(arrived[i]) else None
    {
      AllRegular(log);
    }

    lemma AllServed()
      requires Fifo([])
      ensures |outcomes| == |accepted|
    {}
  }
}
