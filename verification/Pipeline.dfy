/** Both ends of a connection: commands queued and written in parts (hiredis.c), and
    bytes read in parts into replies (read.c). */
module Pipeline {
  import opened Bytes
  import opened Numbers
  import opened Resp
  import opened Sds
  import opened Commands
  import opened ReplyTree
  import opened Reader

  /** The output side of a redisContext. */
  class RedisContext {
    var err: bool
    var obuf: SdsString
    // Commands accepted, and bytes the socket has taken.
    ghost var queued: seq<seq<Bytes>>
    ghost var sent: Bytes

    ghost predicate Valid()
      reads this
    {
      Carriable(queued) && sent + obuf.bytes == WireAll(queued)
    }

    constructor ()
      ensures Valid() && queued == [] && sent == [] && !err
    {
      err, obuf, queued, sent := false, Empty(), [], [];
    }

    /** redisFormatCommandArgv, then __redisAppendCommand. */
    method AppendCommand(argv: seq<Bytes>)
      requires Valid() && |Wire(argv)| <= INT_MAX
      modifies this
      ensures Valid() && queued == old(queued) + [argv] && sent == old(sent) && err == old(err)
    {
      var cmd, len := FormatCommandArgv(argv);
      obuf := CatLen(obuf, cmd[..len]);
      WireAllSnoc(queued, argv);
      queued := queued + [argv];
      assert sent + obuf.bytes == sent + old(obuf.bytes) + Wire(argv);
    }

    /** redisBufferWrite, given what write() returned and whether a failure may be retried. */
    method BufferWrite(nwritten: int, retry: bool) returns (ok: bool, done: bool)
      requires Valid() && -1 <= nwritten <= |obuf.bytes|
      modifies this
      ensures Valid() && queued == old(queued)
      ensures ok == !err && err == (old(err) || (old(|obuf.bytes|) > 0 && nwritten == -1 && !retry))
      ensures sent == if ok && nwritten > 0 then old(sent) + old(obuf.bytes)[..nwritten] else old(sent)
      ensures ok ==> (done <==> sent == WireAll(queued))
    {
      done := false;
      if err { return false, done; }
      if |obuf.bytes| > 0 {
        if nwritten == -1 {
          if !retry {
            err := true;
            return false, done;
          }
        } else if nwritten > 0 {
          sent := sent + obuf.bytes[..nwritten];
          if nwritten == |obuf.bytes| {
            obuf := Empty();
          } else {
            obuf := Range(obuf, nwritten, -1);
          }
          assert old(obuf.bytes) == old(obuf.bytes)[..nwritten] + obuf.bytes;
        }
      }
      ok, done := true, |obuf.bytes| == 0;
      assert |sent + obuf.bytes| == |sent| + |obuf.bytes|;
    }

    /** Whatever part of the stream has been written, a reader of it has got whole
        commands in order, and has seen no error. */
    lemma SentReads()
      requires Valid()
      ensures ReadAll(sent).replies <= AsReplies(queued) && ReadAll(sent).error == None
    {
      PrefixReads(queued, sent, obuf.bytes);
    }
  }

  // ---- reading in pieces ----

  /** What the caller has collected from a reader fed with `all`. */
  ghost predicate Collected(reader: RedisReader, all: Bytes, replies: seq<ReplyObject>, tree: set<ReplyObject>)
    reads reader, reader.rstack, reader.nodes, reader.built, tree
  {
    && reader.Valid()
    && reader.received <= all && (reader.err == None ==> reader.received == all)
    && |replies| == |reader.emitted|
    && (forall i :: 0 <= i < |replies| ==> Represents(replies[i], reader.emitted[i], tree))
    && (forall i :: 0 <= i < |reader.nodes| ==> reader.nodes[i] !in tree)
  }

  lemma {:induction false} RepresentsGrows(o: ReplyObject?, v: Reply, tree: set<ReplyObject>, more: set<ReplyObject>)
    requires Represents(o, v, tree)
    ensures Represents(o, v, tree + more)
    decreases v
  {
    match v
    case Array(vs) =>
      forall i | 0 <= i < |vs| ensures Represents(o.element[i], vs[i], tree + more) {
        RepresentsGrows(o.element[i], vs[i], tree, more);
      }
    case _ =>
  }

  /** One call of redisReaderGetReply: the replies collected before stay as they are. */
  method Collect(reader: RedisReader, ghost all: Bytes, replies: seq<ReplyObject>, ghost tree: set<ReplyObject>)
    returns (more: bool, replies': seq<ReplyObject>, ghost tree': set<ReplyObject>)
    requires Collected(reader, all, replies, tree)
    modifies reader, reader.rstack, reader.nodes
    ensures Collected(reader, all, replies', tree') && replies <= replies'
    ensures more ==> |old(reader.finished)| < |reader.finished| <= |reader.received| == |old(reader.received)|
    ensures !more ==> replies' == replies && ReadAll(reader.received) == Stream(reader.emitted, reader.err)
    ensures forall i :: 0 <= i < |reader.nodes| ==> reader.nodes[i] in old(reader.nodes) || fresh(reader.nodes[i])
  {
    var ok, r, t := reader.GetReply();
    more := r != null;
    if more {
      replies', tree' := replies + [r], tree + t;
      forall i | 0 <= i < |replies| ensures Represents(replies[i], reader.emitted[i], tree') {
        RepresentsGrows(replies[i], reader.emitted[i], tree, t);
      }
      RepresentsGrows(r, r.val, t, tree);
      assert t + tree == tree';
    } else {
      replies', tree' := replies, tree;
    }
  }

  /** Any number of such calls. */
  method Poll(reader: RedisReader, ghost all: Bytes, replies0: seq<ReplyObject>, ghost tree0: set<ReplyObject>, calls: nat)
    returns (replies: seq<ReplyObject>, ghost tree: set<ReplyObject>)
    requires Collected(reader, all, replies0, tree0)
    modifies reader, reader.rstack, reader.nodes
    ensures Collected(reader, all, replies, tree)
    ensures forall i :: 0 <= i < |reader.nodes| ==> reader.nodes[i] in old(reader.nodes) || fresh(reader.nodes[i])
  {
    replies, tree := replies0, tree0;
    for n := 0 to calls
      invariant Collected(reader, all, replies, tree)
      invariant forall i :: 0 <= i < |reader.nodes| ==> reader.nodes[i] in old(reader.nodes) || fresh(reader.nodes[i])
    {
      var more;
      more, replies, tree := Collect(reader, all, replies, tree);
    }
  }

  /** Calls until no reply comes. */
  method Drain(reader: RedisReader, ghost all: Bytes, replies0: seq<ReplyObject>, ghost tree0: set<ReplyObject>)
    returns (replies: seq<ReplyObject>, ghost tree: set<ReplyObject>)
    requires Collected(reader, all, replies0, tree0)
    modifies reader, reader.rstack, reader.nodes
    ensures Collected(reader, all, replies, tree) && ReadAll(all) == Stream(reader.emitted, reader.err)
  {
    replies, tree := replies0, tree0;
    var more := true;
    while more
      invariant Collected(reader, all, replies, tree)
      invariant forall i :: 0 <= i < |reader.nodes| ==> reader.nodes[i] in old(reader.nodes) || fresh(reader.nodes[i])
      invariant !more ==> ReadAll(reader.received) == Stream(reader.emitted, reader.err)
      decreases more, |reader.received| - |reader.finished|
    {
      more, replies, tree := Collect(reader, all, replies, tree);
    }
    ErrorsLast(reader.received, all, reader.emitted, reader.err);
  }

  lemma ErrorsLast(received: Bytes, all: Bytes, emitted: seq<Reply>, err: Option<ProtocolError>)
    requires ReadAll(received) == Stream(emitted, err) && received <= all && (err == None ==> received == all)
    ensures ReadAll(all) == Stream(emitted, err)
  {
    ReadAllMonotone(received, all[|received|..]);
    assert received + all[|received|..] == all;
  }

  method FeedOn(reader: RedisReader, ghost all: Bytes, chunk: Bytes, replies: seq<ReplyObject>, ghost tree: set<ReplyObject>)
    requires Collected(reader, all, replies, tree)
    modifies reader
    ensures Collected(reader, all + chunk, replies, tree) && reader.nodes == old(reader.nodes)
  {
    var fed := reader.Feed(chunk);
  }

  /** One piece, and some calls after it. */
  method ReadPiece(reader: RedisReader, ghost all: Bytes, piece: Bytes, calls: nat,
                   replies0: seq<ReplyObject>, ghost tree0: set<ReplyObject>)
    returns (replies: seq<ReplyObject>, ghost tree: set<ReplyObject>)
    requires Collected(reader, all, replies0, tree0)
    modifies reader, reader.rstack, reader.nodes
    ensures Collected(reader, all + piece, replies, tree)
    ensures forall i :: 0 <= i < |reader.nodes| ==> reader.nodes[i] in old(reader.nodes) || fresh(reader.nodes[i])
  {
    hide Collected;
    FeedOn(reader, all, piece, replies0, tree0);
    replies, tree := Poll(reader, all + piece, replies0, tree0, calls);
  }

  lemma NothingCollected(reader: RedisReader)
    requires reader.Valid() && reader.err == None && reader.received == [] && reader.emitted == []
    ensures Collected(reader, [], [], {})
  {}

  lemma CollectedAll(reader: RedisReader, all: Bytes, replies: seq<ReplyObject>, tree: set<ReplyObject>)
    requires Collected(reader, all, replies, tree)
    ensures |replies| == |reader.emitted|
    ensures forall i :: 0 <= i < |replies| ==> Represents(replies[i], reader.emitted[i], tree)
  {}

  /** Feeds `pieces` one by one, asks for `polls[k]` replies after the k-th of them, and
      drains the reader at the end. However the bytes are cut and whenever replies are
      asked for, the result is what the grammar reads from all the bytes at once. */
  method ReadPieces(pieces: seq<Bytes>, polls: seq<nat>)
    returns (reader: RedisReader, replies: seq<ReplyObject>, ghost tree: set<ReplyObject>)
    requires |polls| == |pieces|
    ensures ReadAll(Concat(pieces)) == Stream(reader.emitted, reader.err)
    ensures |replies| == |reader.emitted|
    ensures forall i :: 0 <= i < |replies| ==> Represents(replies[i], reader.emitted[i], tree)
  {
    hide Collected, RedisReader.Valid;
    reader := new RedisReader();
    replies, tree := [], {};
    NothingCollected(reader);
    assert pieces[..0] == [] && Concat([]) == [];
    for k := 0 to |pieces|
      invariant Collected(reader, Concat(pieces[..k]), replies, tree)
      invariant fresh(reader) && fresh(reader.rstack)
      invariant forall i :: 0 <= i < |reader.nodes| ==> fresh(reader.nodes[i])
    {
      assert pieces[..k + 1] == pieces[..k] + [pieces[k]];
      ConcatSnoc(pieces[..k], pieces[k]);
      replies, tree := ReadPiece(reader, Concat(pieces[..k]), pieces[k], polls[k], replies, tree);
    }
    assert pieces[..|pieces|] == pieces;
    replies, tree := Drain(reader, Concat(pieces), replies, tree);
    CollectedAll(reader, Concat(pieces), replies, tree);
  }

  /** End to end: commands written in any parts and read in any pieces come out as
      exactly their argument vectors, in order. */
  method Deliver(cmds: seq<seq<Bytes>>, pieces: seq<Bytes>, polls: seq<nat>)
    returns (replies: seq<ReplyObject>, ghost tree: set<ReplyObject>)
    requires Carriable(cmds) && Concat(pieces) == WireAll(cmds) && |polls| == |pieces|
    ensures |replies| == |cmds|
    ensures forall i :: 0 <= i < |cmds| ==> Represents(replies[i], Array(Strs(cmds[i])), tree)
  {
    var reader;
    reader, replies, tree := ReadPieces(pieces, polls);
    WireAllReads(cmds);
  }
}
