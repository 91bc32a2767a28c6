/** The asynchronous context on the bytes of its connection (async.c, read.c): its replies are
    those that the reader makes of what the socket brings, in whatever pieces. */
module AsyncBytes {
  import opened Bytes
  import opened Resp
  import opened Commands
  import opened ReplyTree
  import opened Reader
  import opened Pipeline
  import opened Callbacks
  import opened AsyncHistory
  import opened Async

  /** What a reply object says to a callback. */
  method Value(o: ReplyObject, ghost v: Reply, ghost tree: set<ReplyObject>) returns (r: Reply)
    requires Represents(o, v, tree)
    ensures r == v
    decreases v
  {
    match o.kind
    case NilReply => r := Nil;
    case Typed(TInteger) => r := Integer(o.integer);
    case Typed(TStatus) => r := Status(o.str);
    case Typed(TError) => r := Error(o.str);
    case Typed(TString) => r := Str(o.str);
    case Typed(TArray) =>
      var elems: seq<Reply> := [];
      for i := 0 to |o.element|
        invariant elems == v.elems[..i]
      {
        var elem := Value(o.element[i], v.elems[i], tree);
        elems := elems + [elem];
      }
      r := Array(elems);
  }

  /** A reader that has been fed with `all`, or as much of it as came before an error. */
  ghost predicate Fed(reader: RedisReader, all: Bytes)
    reads reader, reader.rstack, reader.nodes, reader.built
  {
    reader.Valid() && reader.received <= all && (reader.err == None ==> reader.received == all)
  }

  twostate predicate NodesKept(reader: RedisReader)
    reads reader
  {
    forall i :: 0 <= i < |reader.nodes| ==> reader.nodes[i] in old(reader.nodes) || fresh(reader.nodes[i])
  }

  /** All replies that the reader can make of what it has. */
  method TakeAll(reader: RedisReader, ghost all: Bytes) returns (batch: seq<Reply>, broken: bool)
    requires Fed(reader, all)
    modifies reader, reader.rstack, reader.nodes
    ensures Fed(reader, all) && NodesKept(reader)
    ensures reader.emitted == old(reader.emitted) + batch && broken == reader.err.Some?
    ensures ReadAll(all) == Stream(reader.emitted, reader.err)
  {
    hide RedisReader.Valid, Represents;
    batch, broken := [], false;
    while true
      invariant Fed(reader, all) && NodesKept(reader) && reader.emitted == old(reader.emitted) + batch
      decreases |reader.received| - |reader.finished|
    {
      var ok, r, tree := reader.GetReply();
      if r == null {
        ErrorsLast(reader.received, all, reader.emitted, reader.err);
        return batch, !ok;
      }
      var reply := Value(r, r.val, tree);
      batch := batch + [reply];
    }
  }

  // What no reader is needed for.
  type Other = e: Event | e.Readable? ==> e.arrival.ReadFailed? witness Call(Disconnect)

  /** The socket brings some bytes, or something else happens. */
  datatype Happening = Chunk(bytes: Bytes) | Else(event: Other)

  function BytesOf(happening: Happening): Bytes {
    match happening
    case Chunk(bytes) => bytes
    case Else(_) => []
  }

  function Received(happenings: seq<Happening>): Bytes {
    if happenings == [] then []
    else
      var n := |happenings| - 1;
      Received(happenings[..n]) + BytesOf(happenings[n])
  }

  /** The events that are no arrivals. */
  function Events(happenings: seq<Happening>): seq<Event> {
    if happenings == [] then []
    else
      var n := |happenings| - 1;
      Events(happenings[..n]) + match happenings[n] case Chunk(_) => [] case Else(event) => [event]
  }

  predicate PlainCall(happening: Happening) { happening.Else? ==> Plain(happening.event) }

  /** The replies taken are those that the grammar reads; all of them, unless the context
      has ended. */
  ghost predicate InStep(ac: AsyncContext, stream: Bytes)
    reads ac`h, ac`freed, ac`aborted
  {
    && ac.h.arrived <= ReadAll(stream).replies
    && (!ac.freed && !ac.aborted ==> ac.h.arrived == ReadAll(stream).replies && ReadAll(stream).error == None)
  }

  lemma StaysInStep(ac: AsyncContext, stream: Bytes, more: Bytes)
    requires InStep(ac, stream) && (ac.freed || ac.aborted)
    ensures InStep(ac, stream + more)
  {
    ReadAllMonotone(stream, more);
  }

  /** A connection becomes readable with these bytes. */
  method Arrive(ac: AsyncContext, reader: RedisReader, ghost stream: Bytes, bytes: Bytes)
    requires ac.Idle() && Fed(reader, stream) && InStep(ac, stream)
    requires ReadAll(stream) == Stream(reader.emitted, reader.err)
    modifies ac, ac.replies, ac.invalid, ac.replies.repr, ac.invalid.repr, reader, reader.rstack, reader.nodes
    ensures ac.Valid() && ac.Grown() && (ac.freed || ac.aborted || ac.Idle()) && NodesKept(reader)
    ensures Fed(reader, stream + bytes) && InStep(ac, stream + bytes)
    ensures ReadAll(stream + bytes) == Stream(reader.emitted, reader.err)
    ensures ac.Steady()
  {
    hide RedisReader.Valid, AsyncContext.Idle, AsyncContext.Valid;
    ac.IdleIsValid();
    var fed := reader.Feed(bytes);
    var batch, broken := TakeAll(reader, stream + bytes);
    ac.HandleRead(Established, Data(batch, broken));
  }

  /** One event. */
  method Happen(ac: AsyncContext, reader: RedisReader, ghost stream: Bytes, happening: Happening)
    requires ac.Idle() && Fed(reader, stream) && InStep(ac, stream)
    requires ReadAll(stream) == Stream(reader.emitted, reader.err)
    modifies ac, ac.replies, ac.invalid, ac.replies.repr, ac.invalid.repr, reader, reader.rstack, reader.nodes
    ensures ac.Valid() && ac.Grown() && (ac.freed || ac.aborted || ac.Idle()) && NodesKept(reader)
    ensures var all := stream + BytesOf(happening);
      Fed(reader, all) && InStep(ac, all) && ReadAll(all) == Stream(reader.emitted, reader.err)
    ensures match happening case Chunk(_) => ac.Steady() case Else(event) => ac.Accounted(event)
  {
    hide RedisReader.Valid, AsyncContext.Idle, AsyncContext.Valid, AsyncContext.Steady, AsyncContext.Accounted;
    match happening
    case Chunk(bytes) => Arrive(ac, reader, stream, bytes);
    case Else(event) =>
      ac.IdleIsValid();
      ac.Handle(event);
      assert stream + BytesOf(happening) == stream;
  }

  /** The commands accepted so far are those of the user, with their callbacks. */
  ghost predicate Heard(ac: AsyncContext, happenings: seq<Happening>)
    reads ac`issued, ac`h, ac`disconnecting, ac`freed, ac`aborted
  {
    ac.Accounts(Events(happenings), [], [], false)
  }

  lemma EventsNext(happenings: seq<Happening>, i: nat)
    requires i < |happenings|
    ensures Events(happenings[..i + 1])
      == Events(happenings[..i]) + match happenings[i] case Chunk(_) => [] case Else(event) => [event]
    ensures Received(happenings[..i + 1]) == Received(happenings[..i]) + BytesOf(happenings[i])
  {
    assert happenings[..i + 1][..i] == happenings[..i];
  }

  lemma OrdersNext(events: seq<Event>, event: Event)
    ensures Orders(events + [event]) == Orders(events) + Order(event)
    ensures Callers(events + [event]) == Callers(events) + Caller(event)
  {
    AsyncContext.OneMore(events + [event], |events|);
    assert (events + [event])[..|events|] == events && (events + [event])[..|events| + 1] == events + [event];
  }

  /** The next event of a life. */
  method Next(ac: AsyncContext, reader: RedisReader, happenings: seq<Happening>, i: nat)
    requires i < |happenings| && ac.Idle()
    requires Fed(reader, Received(happenings[..i])) && InStep(ac, Received(happenings[..i]))
    requires ReadAll(Received(happenings[..i])) == Stream(reader.emitted, reader.err)
    modifies ac, ac.replies, ac.invalid, ac.replies.repr, ac.invalid.repr, reader, reader.rstack, reader.nodes
    ensures ac.Valid() && ac.Grown() && (ac.freed || ac.aborted || ac.Idle()) && NodesKept(reader)
    ensures Fed(reader, Received(happenings[..i + 1])) && InStep(ac, Received(happenings[..i + 1]))
    ensures ReadAll(Received(happenings[..i + 1])) == Stream(reader.emitted, reader.err)
    ensures ac.quiet && PlainCall(happenings[i]) && old(Heard(ac, happenings[..i])) ==> Heard(ac, happenings[..i + 1])
  {
    hide RedisReader.Valid, AsyncContext.Valid, AsyncContext.Live, InStep, Fed, Orders, Callers, Events, Plain, Received;
    ac.IdleIsValid();
    ac.IdleStays();
    EventsNext(happenings, i);
    if happenings[i].Else? { OrdersNext(Events(happenings[..i]), happenings[i].event); }
    Happen(ac, reader, Received(happenings[..i]), happenings[i]);
    assert Events(happenings[..i]) + [] == Events(happenings[..i]);
  }

  /** One event after another, until the context has ended. */
  method Proceed(ac: AsyncContext, reader: RedisReader, happenings: seq<Happening>)
    requires ac.Idle() && Fed(reader, []) && InStep(ac, []) && ReadAll([]) == Stream(reader.emitted, reader.err)
    modifies ac, ac.replies, ac.invalid, ac.replies.repr, ac.invalid.repr, reader, reader.rstack, reader.nodes
    ensures ac.Valid() && (ac.freed || ac.aborted || ac.Idle()) && InStep(ac, Received(happenings))
    ensures ac.quiet && (forall i :: 0 <= i < |happenings| ==> PlainCall(happenings[i])) && old(Heard(ac, [])) ==>
      ac.freed || ac.aborted || Heard(ac, happenings)
  {
    hide RedisReader.Valid, AsyncContext.Idle, AsyncContext.Valid, InStep, Fed, PlainCall, Heard;
    ac.IdleIsValid();
    ghost var plain := ac.quiet && Heard(ac, []) && forall i :: 0 <= i < |happenings| ==> PlainCall(happenings[i]);
    var i := 0;
    while i < |happenings| && !ac.freed && !ac.aborted
      invariant i <= |happenings| && ac.Valid() && (ac.freed || ac.aborted || ac.Idle())
      invariant ac.Grown() && NodesKept(reader)
      invariant Fed(reader, Received(happenings[..i])) && InStep(ac, Received(happenings[..i]))
      invariant ReadAll(Received(happenings[..i])) == Stream(reader.emitted, reader.err)
      invariant plain ==> Heard(ac, happenings[..i])
    {
      Next(ac, reader, happenings, i);
      i := i + 1;
    }
    assert happenings[..|happenings|] == happenings;
    if ac.freed || ac.aborted { Later(ac, happenings, i); }
  }

  /** What a context that never subscribes or monitors owes to its commands, in terms of the
      bytes of the connection: the i-th has got the i-th reply in them or, at a teardown,
      NULL, and as long as the context lives every reply has been given. */
  ghost predicate Answered(ac: AsyncContext, stream: Bytes)
    reads ac`h, ac`freed, ac`aborted, ac`frees, ac`orphaned, ac`issued, ac.replies`contents
  {
    var outcomes, replies := ac.h.outcomes, ReadAll(stream).replies;
    && ac.Delivered() && |ac.h.accepted| == |ac.issued|
    && (forall i :: 0 <= i < |outcomes| ==> outcomes[i] == None || (i < |replies| && outcomes[i] == Some(replies[i])))
    && (!ac.freed && !ac.aborted && ac.frees == 0 && !ac.orphaned ==> |outcomes| == |replies|)
  }

  /** The callbacks run so far are those of the first commands, each once, in order, and the
      i-th with the i-th reply in the stream. */
  ghost predicate Conversed(ac: AsyncContext, callers: seq<Callback>, stream: Bytes)
    reads ac`h
  {
    var replies := ReadAll(stream).replies;
    && |ac.h.log| == |replies| <= |callers|
    && forall i :: 0 <= i < |replies| ==> ac.h.log[i] == Run(callers[i], Some(replies[i]), Regular)
  }

  lemma AllConversed(ac: AsyncContext, callers: seq<Callback>, stream: Bytes)
    requires Answered(ac, stream) && !ac.freed && !ac.aborted && ac.frees == 0 && !ac.orphaned
    requires ac.h.accepted == callers && forall i :: 0 <= i < |callers| ==> callers[i].fn != 0
    ensures Conversed(ac, callers, stream)
  {
    RunsAre(callers[..|ac.h.outcomes|], ac.h.outcomes);
  }

  lemma StillIdle(ac: AsyncContext)
    requires ac.Idle()
    ensures ac.frees == 0 && !ac.orphaned
  {}

  /** A whole life of a context: its connection brings bytes in any pieces, the user calls,
      output is sent. The replies that its commands are served with are those that the
      grammar reads from all the bytes, and what the server has got reads as the commands.
      As long as it goes on, with callbacks that leave it alone, the commands are those that
      the user has asked for. */
  method Life(quiet: bool, happenings: seq<Happening>) returns (ac: AsyncContext)
    ensures ac.Valid() && (ac.freed || ac.aborted || ac.Idle())
    ensures InStep(ac, Received(happenings))
    ensures !ac.h.special ==> Answered(ac, Received(happenings))
    ensures ReadAll(ac.sent).replies <= AsReplies(ac.issued) && ReadAll(ac.sent).error == None
    ensures quiet && (forall i :: 0 <= i < |happenings| ==> PlainCall(happenings[i])) && !ac.freed && !ac.aborted ==>
      && ac.issued == Orders(Events(happenings))
      && (!ac.h.special ==> ac.h.accepted == Callers(Events(happenings)))
      && (!ac.h.special && (forall i :: 0 <= i < |ac.h.accepted| ==> ac.h.accepted[i].fn != 0) ==>
            Conversed(ac, Callers(Events(happenings)), Received(happenings)))
  {
    hide RedisReader.Valid, AsyncContext.Idle, AsyncContext.Valid, PlainCall, Orders, Callers, Events, Conversed;
    ac := new AsyncContext(quiet);
    var reader := new RedisReader();
    Begins(ac, reader);
    Proceed(ac, reader, happenings);
    ac.SentReads();
    if !ac.h.special { ac.IsDelivered(); }
    if !ac.freed && !ac.aborted {
      StillIdle(ac);
      if !ac.h.special && forall i :: 0 <= i < |ac.h.accepted| ==> ac.h.accepted[i].fn != 0 {
        AllConversed(ac, ac.h.accepted, Received(happenings));
      }
    }
  }

  lemma Begins(ac: AsyncContext, reader: RedisReader)
    requires ac.Idle() && ac.h.arrived == [] && ac.h.accepted == [] && ac.issued == [] && !ac.disconnecting
    requires reader.Valid() && reader.received == [] && reader.emitted == [] && reader.err == None
    ensures ac.Valid() && Fed(reader, []) && InStep(ac, []) && ReadAll([]) == Stream(reader.emitted, reader.err)
    ensures Heard(ac, [])
  {
    hide RedisReader.Valid;
  }

  /** Nothing changes for a context that has ended. */
  lemma {:induction false} Later(ac: AsyncContext, happenings: seq<Happening>, i: nat)
    requires i <= |happenings| && (ac.freed || ac.aborted) && InStep(ac, Received(happenings[..i]))
    ensures InStep(ac, Received(happenings))
    decreases |happenings| - i
  {
    if i == |happenings| {
      assert happenings[..i] == happenings;
    } else {
      assert happenings[..i + 1][..i] == happenings[..i];
      StaysInStep(ac, Received(happenings[..i]), BytesOf(happenings[i]));
      Later(ac, happenings, i + 1);
    }
  }
}
