/** A batch of messages in a subscribed context (async.c): when every one of them runs its own
    callback, or none. */
module Listening {
  import opened Resp
  import opened Callbacks
  import opened AsyncHistory
  import opened Subscriptions
  import opened Dispatching

  /** A notice that is no answer to a subscription or its end. */
  predicate IsMessage(reply: Reply) {
    var notice := NoticeOf(reply);
    notice.Notice? && notice.word != SUBSCRIBE && notice.word != UNSUBSCRIBE
  }

  ghost predicate AllMessages(batch: seq<Reply>) {
    forall i :: 0 <= i < |batch| ==> IsMessage(batch[i])
  }

  /** Its name has an entry. */
  predicate Known(tables: Tables, reply: Reply)
    requires IsMessage(reply)
  {
    NoticeOf(reply).name in tables.Get(NoticeOf(reply).pattern)
  }

  /** The callback variable after a message. */
  function Next(tables: Tables, last: Callback, reply: Reply): Callback
    requires IsMessage(reply)
  {
    if Known(tables, reply) then tables.Get(NoticeOf(reply).pattern)[NoticeOf(reply).name] else last
  }

  /** The callback of the latest message whose name has an entry. */
  ghost function Latest(tables: Tables, last: Callback, batch: seq<Reply>): Callback
    requires AllMessages(batch)
  {
    if batch == [] then last
    else
      var n := |batch| - 1;
      Next(tables, Latest(tables, last, batch[..n]), batch[n])
  }

  ghost predicate NoneStale(runs: seq<Run>) {
    forall i :: 0 <= i < |runs| ==> runs[i].source != Stale
  }

  lemma MessagesAreArrays(reply: Reply)
    requires IsMessage(reply)
    ensures reply.Array?
  {}

  lemma OneMessage(m: Mode, reply: Reply)
    requires m.queue == [] && m.subscribed && IsMessage(reply)
    ensures Taken(m, reply)
    ensures Dispatch(m, reply)
      == Dispatched(m.(last := Next(m.tables, m.last, reply)), if Known(m.tables, reply) then Subscription else Stale)
  {
    hide NoticeOf;
    MessagesAreArrays(reply);
  }

  // ---------- One message after another ----------

  /** No message without an entry finds a callback in the variable. */
  ghost predicate Clean(tables: Tables, last: Callback, batch: seq<Reply>)
    requires AllMessages(batch)
    decreases |batch|
  {
    batch != [] ==>
      && (Known(tables, batch[0]) || last.fn == NO_FUNCTION)
      && Clean(tables, Next(tables, last, batch[0]), batch[1..])
  }

  lemma NoneStaleJoin(a: seq<Run>, b: seq<Run>)
    ensures NoneStale(a + b) <==> NoneStale(a) && NoneStale(b)
  {
    if NoneStale(a + b) {
      assert forall i :: 0 <= i < |a| ==> a[i] == (a + b)[i];
      assert forall i :: 0 <= i < |b| ==> b[i] == (a + b)[|a| + i];
    }
  }

  lemma {:induction false} CleanIff(m: Mode, batch: seq<Reply>)
    requires m.queue == [] && m.subscribed && AllMessages(batch)
    ensures var p := Replay(m, batch);
      && p.fine && p.mode.subscribed && p.mode.queue == []
      && (NoneStale(p.runs) <==> Clean(m.tables, m.last, batch))
    decreases |batch|
  {
    if batch != [] {
      hide Dispatch, Taken, NoticeOf, IsMessage, Known, Next, NoneStale;
      var d := Dispatch(m, batch[0]);
      OneMessage(m, batch[0]);
      CleanIff(d.mode, batch[1..]);
      var run := RunOf(Finding(d.mode.last, d.source), batch[0]);
      NoneStaleJoin(run, Replay(d.mode, batch[1..]).runs);
      FirstRun(m, batch[0]);
    } else {
      assert Replay(m, batch).runs == [];
    }
  }

  lemma FirstRun(m: Mode, reply: Reply)
    requires m.queue == [] && m.subscribed && IsMessage(reply)
    ensures var d := Dispatch(m, reply);
      NoneStale(RunOf(Finding(d.mode.last, d.source), reply)) <==> Known(m.tables, reply) || m.last.fn == NO_FUNCTION
  {
    hide Dispatch, NoticeOf, IsMessage;
    OneMessage(m, reply);
    var d := Dispatch(m, reply);
    var runs := RunOf(Finding(d.mode.last, d.source), reply);
    if !Known(m.tables, reply) && m.last.fn != NO_FUNCTION { assert runs[0].source == Stale; }
  }

  // ---------- The condition on a whole batch ----------

  lemma {:induction false} LatestFront(tables: Tables, last: Callback, reply: Reply, rest: seq<Reply>)
    requires IsMessage(reply) && AllMessages(rest)
    ensures AllMessages([reply] + rest)
    ensures Latest(tables, last, [reply] + rest) == Latest(tables, Next(tables, last, reply), rest)
    decreases |rest|
  {
    hide IsMessage, Next;
    var all := [reply] + rest;
    var n := |rest|;
    if rest == [] {
      assert all[..0] == [];
    } else {
      LatestFront(tables, last, reply, rest[..n - 1]);
      assert all[..n] == [reply] + rest[..n - 1];
    }
  }

  /** A message of an unknown name comes when the latest known one has no callback. */
  ghost predicate Apart(tables: Tables, last: Callback, batch: seq<Reply>)
    requires AllMessages(batch)
  {
    forall k :: 0 <= k < |batch| ==> ApartAt(tables, last, batch, k)
  }

  ghost predicate ApartAt(tables: Tables, last: Callback, batch: seq<Reply>, k: nat)
    requires AllMessages(batch) && k < |batch|
  {
    Known(tables, batch[k]) || Latest(tables, last, batch[..k]).fn == NO_FUNCTION
  }

  lemma ApartNext(tables: Tables, last: Callback, batch: seq<Reply>, k: nat)
    requires AllMessages(batch) && 0 < k < |batch|
    ensures ApartAt(tables, last, batch, k) <==> ApartAt(tables, Next(tables, last, batch[0]), batch[1..], k - 1)
  {
    hide IsMessage, Known, Next;
    var rest := batch[1..];
    LatestFront(tables, last, batch[0], rest[..k - 1]);
    assert batch[..k] == [batch[0]] + rest[..k - 1] && batch[k] == rest[k - 1];
  }

  lemma {:induction false} ApartIff(tables: Tables, last: Callback, batch: seq<Reply>)
    requires AllMessages(batch)
    ensures Apart(tables, last, batch) <==> Clean(tables, last, batch)
    decreases |batch|
  {
    if batch != [] {
      hide IsMessage, Known, Next, ApartAt;
      var rest, next := batch[1..], Next(tables, last, batch[0]);
      ApartIff(tables, next, rest);
      ApartFirst(tables, last, batch);
      forall k | 0 < k < |batch| ensures ApartAt(tables, last, batch, k) <==> ApartAt(tables, next, rest, k - 1) {
        ApartNext(tables, last, batch, k);
      }
      if Apart(tables, last, batch) {
        forall k | 0 <= k < |rest| ensures ApartAt(tables, next, rest, k) { assert ApartAt(tables, last, batch, k + 1); }
      }
    }
  }

  lemma ApartFirst(tables: Tables, last: Callback, batch: seq<Reply>)
    requires AllMessages(batch) && batch != []
    ensures ApartAt(tables, last, batch, 0) <==> Known(tables, batch[0]) || last.fn == NO_FUNCTION
  {
    assert batch[..0] == [];
  }

  /** In a batch of messages no callback runs for a message that is not its own, if and only
      if no message for a name without an entry comes when the latest one before it, among
      those for names with an entry, has a callback. */
  lemma NoneStaleIff(m: Mode, batch: seq<Reply>)
    requires m.queue == [] && m.subscribed && AllMessages(batch)
    ensures Replay(m, batch).fine
    ensures NoneStale(Replay(m, batch).runs) <==> Apart(m.tables, m.last, batch)
  {
    CleanIff(m, batch);
    ApartIff(m.tables, m.last, batch);
  }

  // ---------- When every entry has a callback ----------

  ghost predicate Loaded(tables: Tables) {
    forall pattern: bool, n :: n in tables.Get(pattern) ==> tables.Get(pattern)[n].fn != NO_FUNCTION
  }

  /** No message of an unknown name comes after one of a known name. */
  ghost predicate UnknownFirst(tables: Tables, batch: seq<Reply>)
    requires AllMessages(batch)
  {
    forall i, k :: 0 <= i < k < |batch| && Known(tables, batch[i]) ==> Known(tables, batch[k])
  }

  lemma {:induction false} LatestLoaded(tables: Tables, batch: seq<Reply>)
    requires AllMessages(batch) && Loaded(tables)
    ensures Latest(tables, NO_CALLBACK, batch).fn == NO_FUNCTION <==>
      forall i :: 0 <= i < |batch| ==> !Known(tables, batch[i])
  {
    hide NoticeOf;
    if batch != [] {
      var n := |batch| - 1;
      LatestLoaded(tables, batch[..n]);
      assert forall i :: 0 <= i < n ==> batch[..n][i] == batch[i];
    }
  }

  /** With a callback at every entry the order of the batch decides: no callback runs for a
      message that is not its own, if and only if no message for a name without an entry
      comes after one for a name with an entry. */
  lemma OrderDecides(m: Mode, batch: seq<Reply>)
    requires m.queue == [] && m.subscribed && m.last == NO_CALLBACK && AllMessages(batch) && Loaded(m.tables)
    ensures NoneStale(Replay(m, batch).runs) <==> UnknownFirst(m.tables, batch)
  {
    hide NoneStale, Replay, IsMessage, Known, Loaded, ApartAt;
    NoneStaleIff(m, batch);
    forall k | 0 <= k < |batch|
      ensures ApartAt(m.tables, m.last, batch, k)
        <==> Known(m.tables, batch[k]) || forall i :: 0 <= i < k ==> !Known(m.tables, batch[i])
    {
      ApartLoaded(m.tables, batch, k);
    }
    if UnknownFirst(m.tables, batch) {
      forall k | 0 <= k < |batch| ensures ApartAt(m.tables, m.last, batch, k) {}
    } else {
      var i, k :| 0 <= i < k < |batch| && Known(m.tables, batch[i]) && !Known(m.tables, batch[k]);
      assert !ApartAt(m.tables, m.last, batch, k);
    }
  }

  lemma ApartLoaded(tables: Tables, batch: seq<Reply>, k: nat)
    requires AllMessages(batch) && Loaded(tables) && k < |batch|
    ensures ApartAt(tables, NO_CALLBACK, batch, k)
      <==> Known(tables, batch[k]) || forall i :: 0 <= i < k ==> !Known(tables, batch[i])
  {
    hide Latest, IsMessage, Known, Loaded;
    LatestLoaded(tables, batch[..k]);
    assert forall i :: 0 <= i < k ==> batch[..k][i] == batch[i];
  }
}
