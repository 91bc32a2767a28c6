/** Monitor mode (async.c): after each batch of replies the callback that was found last is
    queued again, in the hope that it is the one of the monitor command. */
module Monitoring {
  import opened Bytes
  import opened Resp
  import opened Callbacks
  import opened AsyncHistory
  import opened Dispatching

  /** What one read after another comes to when the callbacks leave the context alone. */
  ghost function Batches(m: Mode, batches: seq<seq<Reply>>): Played
    decreases |batches|
  {
    if batches == [] then Played(m, [], true)
    else
      var first := Replay(m, batches[0]);
      var rest := Batches(Repushed(first.mode).(last := NO_CALLBACK), batches[1..]);
      Played(rest.mode, first.runs + rest.runs, first.fine && rest.fine)
  }

  lemma BatchesSome(m: Mode, batch: seq<Reply>, rest: seq<seq<Reply>>, log: seq<Run>)
    ensures var first := Replay(m, batch);
      var all, more := Batches(m, [batch] + rest), Batches(Repushed(first.mode).(last := NO_CALLBACK), rest);
      all.fine == (first.fine && more.fine) && log + all.runs == log + first.runs + more.runs
  {
    hide Replay;
    assert ([batch] + rest)[1..] == rest;
  }

  ghost function Lines(batches: seq<seq<Reply>>): seq<Reply>
    decreases |batches|
  {
    if batches == [] then [] else batches[0] + Lines(batches[1..])
  }

  /** How many lines come after the first read that brings none. */
  ghost function AfterGap(batches: seq<seq<Reply>>): nat
    decreases |batches|
  {
    if batches == [] then 0
    else if batches[0] == [] then |Lines(batches[1..])|
    else AfterGap(batches[1..])
  }

  ghost predicate NoErrors(replies: seq<Reply>) {
    forall i :: 0 <= i < |replies| ==> !replies[i].Error?
  }

  /** Monitor mode without subscriptions, between two reads. */
  ghost predicate Watching(m: Mode) {
    m.monitoring && !m.subscribed && m.last == NO_CALLBACK
  }

  /** Each line is given to the callback, in order. */
  ghost predicate Told(runs: seq<Run>, cb: Callback, lines: seq<Reply>) {
    |runs| == |lines| && forall i :: 0 <= i < |runs| ==> runs[i].cb == cb && runs[i].reply == Some(lines[i])
  }

  lemma ToldOn(runs: seq<Run>, more: seq<Run>, cb: Callback, a: seq<Reply>, b: seq<Reply>)
    requires Told(runs, cb, a) && Told(more, cb, b)
    ensures Told(runs + more, cb, a + b)
  {}

  // ---------- One read ----------

  lemma {:induction false} AtMostOneRunEach(m: Mode, replies: seq<Reply>)
    ensures |Replay(m, replies).runs| <= |replies|
    decreases |replies|
  {
    hide Dispatch, Taken;
    if replies != [] { AtMostOneRunEach(Dispatch(m, replies[0]).mode, replies[1..]); }
  }

  /** With an empty queue a callback that is set gets all lines. */
  lemma {:induction false} AllStale(m: Mode, lines: seq<Reply>)
    requires m.queue == [] && m.monitoring && !m.subscribed && m.last.fn != NO_FUNCTION && NoErrors(lines)
    ensures var p := Replay(m, lines); p.mode == m && p.fine && Told(p.runs, m.last, lines)
    decreases |lines|
  {
    if lines != [] {
      assert Dispatch(m, lines[0]) == Dispatched(m, Stale);
      AllStale(m, lines[1..]);
    }
  }

  /** One read when the callback is alone in the queue, or has only empty ones behind it
      and at most one line comes. */
  lemma OneRead(m: Mode, cb: Callback, lines: seq<Reply>)
    requires Watching(m) && m.queue != [] && m.queue[0] == cb && cb.fn != NO_FUNCTION && NoErrors(lines)
    requires |m.queue| == 1 || |lines| <= 1
    ensures var p := Replay(m, lines);
      && p.fine && Told(p.runs, cb, lines)
      && Repushed(p.mode).(last := NO_CALLBACK)
        == m.(queue := if lines == [] then m.queue + [NO_CALLBACK] else m.queue[1..] + [cb])
  {
    if lines != [] {
      var after := m.(queue := m.queue[1..], last := cb);
      assert Dispatch(m, lines[0]) == Dispatched(after, Regular);
      if |m.queue| == 1 {
        AllStale(after, lines[1..]);
      } else {
        assert lines[1..] == [];
      }
    }
  }

  // ---------- All reads ----------

  lemma {:induction false} AtMostOneRunALine(m: Mode, batches: seq<seq<Reply>>)
    ensures |Batches(m, batches).runs| <= |Lines(batches)|
    decreases |batches|
  {
    hide Dispatch, Taken, Replay;
    if batches != [] {
      var first := Replay(m, batches[0]);
      AtMostOneRunEach(m, batches[0]);
      AtMostOneRunALine(Repushed(first.mode).(last := NO_CALLBACK), batches[1..]);
    }
  }

  /** An empty callback in the first or second place takes a line away. */
  lemma {:induction false} Swallowed(m: Mode, batches: seq<seq<Reply>>)
    requires Watching(m) && m.queue != []
    requires if m.queue[0] == NO_CALLBACK then Lines(batches) != []
      else |m.queue| > 1 && m.queue[1] == NO_CALLBACK && |Lines(batches)| > 1
    ensures |Batches(m, batches).runs| < |Lines(batches)|
    decreases |batches|
  {
    hide Taken, DispatchNotice;
    var lines, rest := batches[0], batches[1..];
    var next := Repushed(Replay(m, lines).mode).(last := NO_CALLBACK);
    if lines == [] {
      assert next == m.(queue := m.queue + [NO_CALLBACK]);
      Swallowed(next, rest);
    } else {
      var one := Dispatch(m, lines[0]).mode;
      assert one == m.(queue := m.queue[1..], last := m.queue[0]);
      AtMostOneRunALine(next, rest);
      AtMostOneRunEach(one, lines[1..]);
      if m.queue[0] != NO_CALLBACK {
        if |lines| > 1 {
          assert lines[1..][0] == lines[1];
          var two := Dispatch(one, lines[1]).mode;
          assert two.last == NO_CALLBACK;
          AtMostOneRunEach(two, lines[1..][1..]);
        } else {
          assert lines[1..] == [];
          assert next == m.(queue := m.queue[1..] + [m.queue[0]]);
          Swallowed(next, rest);
        }
      }
    }
  }

  /** At most one more line, with the callback at the head of the queue. */
  lemma {:induction false} LastLine(m: Mode, cb: Callback, batches: seq<seq<Reply>>)
    requires Watching(m) && m.queue != [] && NoErrors(Lines(batches))
    requires |Lines(batches)| <= 1 && (Lines(batches) != [] ==> m.queue[0] == cb && cb.fn != NO_FUNCTION)
    ensures var p := Batches(m, batches); p.fine && Told(p.runs, cb, Lines(batches))
    decreases |batches|
  {
    hide Dispatch, Taken;
    if batches != [] {
      var lines, rest := batches[0], batches[1..];
      var next := Repushed(Replay(m, lines).mode).(last := NO_CALLBACK);
      Parts(lines, Lines(rest));
      if lines == [] {
        assert next == m.(queue := m.queue + [NO_CALLBACK]);
      } else {
        assert Lines(rest) == [];
        OneRead(m, cb, lines);
      }
      LastLine(next, cb, rest);
    }
  }

  lemma {:induction false} ServedWithoutGap(m: Mode, cb: Callback, batches: seq<seq<Reply>>)
    requires Watching(m) && m.queue == [cb] && cb.fn != NO_FUNCTION && NoErrors(Lines(batches))
    requires AfterGap(batches) <= 1
    ensures var p := Batches(m, batches); p.fine && Told(p.runs, cb, Lines(batches))
    decreases |batches|
  {
    hide Dispatch, Taken;
    if batches != [] {
      var lines, rest := batches[0], batches[1..];
      Parts(lines, Lines(rest));
      OneRead(m, cb, lines);
      var next := Repushed(Replay(m, lines).mode).(last := NO_CALLBACK);
      if lines == [] { LastLine(next, cb, rest); } else { ServedWithoutGap(next, cb, rest); }
      ToldOn(Replay(m, lines).runs, Batches(next, rest).runs, cb, lines, Lines(rest));
    }
  }

  lemma Parts(a: seq<Reply>, b: seq<Reply>)
    requires NoErrors(a + b)
    ensures NoErrors(a) && NoErrors(b)
  {
    assert forall i :: 0 <= i < |a| ==> a[i] == (a + b)[i];
    assert forall i :: 0 <= i < |b| ==> b[i] == (a + b)[|a| + i];
  }

  lemma {:induction false} LostAfterGap(m: Mode, cb: Callback, batches: seq<seq<Reply>>)
    requires Watching(m) && m.queue == [cb] && cb.fn != NO_FUNCTION && NoErrors(Lines(batches))
    requires AfterGap(batches) > 1
    ensures |Batches(m, batches).runs| < |Lines(batches)|
    decreases |batches|
  {
    var lines, rest := batches[0], batches[1..];
    Parts(lines, Lines(rest));
    OneRead(m, cb, lines);
    var next := Repushed(Replay(m, lines).mode).(last := NO_CALLBACK);
    if lines == [] { Swallowed(next, rest); } else { LostAfterGap(next, cb, rest); }
  }

  lemma {:induction false} ReplayGoesOn(m: Mode, replies: seq<Reply>)
    requires m.monitoring && !m.subscribed && NoErrors(replies)
    ensures var p := Replay(m, replies); p.fine && p.mode.monitoring && !p.mode.subscribed
    decreases |replies|
  {
    if replies != [] { ReplayGoesOn(Dispatch(m, replies[0]).mode, replies[1..]); }
  }

  /** No line makes an assertion fail. */
  lemma {:induction false} WatchingGoesOn(m: Mode, batches: seq<seq<Reply>>)
    requires Watching(m) && NoErrors(Lines(batches))
    ensures Batches(m, batches).fine
    decreases |batches|
  {
    hide Replay;
    if batches != [] {
      Parts(batches[0], Lines(batches[1..]));
      ReplayGoesOn(m, batches[0]);
      WatchingGoesOn(Repushed(Replay(m, batches[0]).mode).(last := NO_CALLBACK), batches[1..]);
    }
  }

  /** In monitor mode every line reaches the callback of the monitor command, if and only if
      at most one line comes after the first read that brings no complete one. */
  lemma EveryLineIff(m: Mode, cb: Callback, batches: seq<seq<Reply>>)
    requires Watching(m) && m.queue == [cb] && cb.fn != NO_FUNCTION && NoErrors(Lines(batches))
    ensures Told(Batches(m, batches).runs, cb, Lines(batches)) <==> AfterGap(batches) <= 1
  {
    if AfterGap(batches) <= 1 {
      ServedWithoutGap(m, cb, batches);
    } else {
      LostAfterGap(m, cb, batches);
    }
  }
}
