/** The resumable reply reader of read.c with the object builders of hiredis.c: a
    task stack of nine slots, a cursor into a growing buffer, and a reply tree
    filled in through parent links. It is proved to read exactly what the grammar
    in `Resp` reads, however the bytes arrive. */
module Reader {
  import opened Bytes
  import opened Numbers
  import opened Resp
  import opened Frames
  import opened ReplyTree
  import opened Sds

  /** Bytes that complete a line item do so whatever follows them. */
  lemma LineCompletes(t: ItemType, u: Bytes, level: nat, v: Reply)
    requires t in {TStatus, TError, TInteger} && level <= MAX_LEVEL
    requires FindCRLF(u).Some? && LineReply(t, u[..FindCRLF(u).value]) == Some(v)
    ensures ItemIs(t, level, u[..FindCRLF(u).value + 2], v)
  {
    var k := FindCRLF(u).value;
    var c := u[..k + 2];
    FindCRLFInPrefix(u, k);
    assert c[..k] == u[..k] && c[k + 2..] == [];
    forall x: Bytes ensures Item(Some(t), level, c + x) == Done(v, x) {
      LineStable(t, c, x);
      assert [] + x == x;
    }
  }

  lemma LineFails(used: Bytes, frames: seq<Frame>, t: ItemType, u: Bytes)
    requires Tracks(used, frames, Some(t)) && t in {TStatus, TError, TInteger}
    requires FindCRLF(u).Some? && LineReply(t, u[..FindCRLF(u).value]) == None
    ensures ParseReply(used + u, 0) == Fail(BadInteger)
  {
    ReplyStops(used, frames, Some(t), u);
  }

  lemma HeaderCompletes(u: Bytes, n: int)
    requires FindCRLF(u).Some? && ParseLong(u[..FindCRLF(u).value]) == Some(n) && -1 <= n <= INT_MAX
    ensures HeaderIs(u[..FindCRLF(u).value + 2], n)
  {
    var k := FindCRLF(u).value;
    var c := u[..k + 2];
    FindCRLFInPrefix(u, k);
    assert c[..k] == u[..k] && c[k + 2..] == [];
    forall x: Bytes ensures ParseHeader(c + x) == Done(n, x) {
      HeaderStable(c, x);
      assert [] + x == x;
    }
  }

  lemma HeaderFails(used: Bytes, frames: seq<Frame>, u: Bytes)
    requires Tracks(used, frames, Some(TArray)) && |frames| < MAX_LEVEL && FindCRLF(u).Some?
    requires var n := ParseLong(u[..FindCRLF(u).value]); n.None? || n.value < -1 || n.value > INT_MAX
    ensures ParseReply(used + u, 0)
         == Fail(if ParseLong(u[..FindCRLF(u).value]).None? then BadMultiBulkLength else MultiBulkLengthOutOfRange)
  {
    assert !ParseArray(u, |frames|).Done?;
    ReplyStops(used, frames, Some(TArray), u);
  }

  lemma BulkFails(used: Bytes, frames: seq<Frame>, u: Bytes)
    requires Tracks(used, frames, Some(TString)) && FindCRLF(u).Some?
    requires var n := ParseLong(u[..FindCRLF(u).value]); n.None? || n.value < -1
    ensures ParseReply(used + u, 0)
         == Fail(if ParseLong(u[..FindCRLF(u).value]).None? then BadBulkLength else BulkLengthOutOfRange)
  {
    ReplyStops(used, frames, Some(TString), u);
  }

  lemma ClosedArrayCompletes(c: Bytes, n: int, level: nat, v: Reply)
    requires level < MAX_LEVEL && -1 <= n <= 0 && v == (if n == -1 then Nil else Array([]))
    requires HeaderIs(c, n)
    ensures ItemIs(TArray, level, c, v)
  {
    forall x: Bytes ensures Item(Some(TArray), level, c + x) == Done(v, x) {
      assert ParseHeader(c + x) == Done(n, x);
      if n == 0 { HeadedArray(c + x, 0, level, x); }
      assert ParseArray(c + x, level) == Done(v, x);
    }
  }

  /** A complete bulk item: its length line, and its content if it has one. */
  lemma BulkCompletes(u: Bytes, level: nat, n: int, v: Reply, size: nat)
    requires level <= MAX_LEVEL && FindCRLF(u).Some? && ParseLong(u[..FindCRLF(u).value]) == Some(n) && n >= -1
    requires var k := FindCRLF(u).value;
      if n == -1 then size == k + 2 && v == Nil
      else size == k + 2 + n + 2 <= |u| && v == Str(u[k + 2..k + 2 + n])
    ensures ItemIs(TString, level, u[..size], v)
  {
    BulkInPrefix(u, n, v, size);
    forall x: Bytes ensures Item(Some(TString), level, u[..size] + x) == Done(v, x) {
      BulkStable(u[..size], x);
      assert [] + x == x;
    }
  }

  lemma BulkInPrefix(u: Bytes, n: int, v: Reply, size: nat)
    requires FindCRLF(u).Some? && ParseLong(u[..FindCRLF(u).value]) == Some(n) && n >= -1
    requires var k := FindCRLF(u).value;
      if n == -1 then size == k + 2 && v == Nil
      else size == k + 2 + n + 2 <= |u| && v == Str(u[k + 2..k + 2 + n])
    ensures ParseBulk(u[..size]) == Done(v, [])
  {
    var k, c := FindCRLF(u).value, u[..size];
    HeaderInPrefix(u, k, size);
    var rest := c[k + 2..];
    if n == -1 {
      assert rest == [];
    } else {
      assert |rest| == n + 2 && rest[..n] == v.text && rest[n + 2..] == [];
    }
  }

  lemma HeaderInPrefix(u: Bytes, k: nat, size: nat)
    requires FindCRLF(u) == Some(k) && k + 2 <= size <= |u|
    ensures FindCRLF(u[..size]) == Some(k) && u[..size][..k] == u[..k]
  {
    hide FindCRLF, CrlfAt;
    FindCRLFInPrefix(u, k);
    FindCRLFStable(u[..k + 2], u[k + 2..size]);
    PrefixJoins(u, k + 2, size);
  }

  lemma PrefixJoins(u: Bytes, i: nat, j: nat)
    requires i <= j <= |u|
    ensures u[..i] + u[i..j] == u[..j]
  {}

  lemma HeaderWaits(u: Bytes, level: nat)
    requires FindCRLF(u).None? && level < MAX_LEVEL
    ensures Item(Some(TArray), level, u) == More
  {
    assert ParseArray(u, level) == More;
  }

  lemma BulkWaits(u: Bytes, n: nat)
    requires FindCRLF(u).Some? && ParseLong(u[..FindCRLF(u).value]) == Some(n)
    requires |u| < FindCRLF(u).value + 2 + n + 2
    ensures ParseBulk(u) == More
  {
  }

  lemma {:induction false} FindCRLFInPrefix(u: Bytes, k: nat)
    requires FindCRLF(u) == Some(k)
    ensures FindCRLF(u[..k + 2]) == Some(k)
  {
    if k > 0 {
      FindCRLFInPrefix(u[1..], k - 1);
      assert u[..k + 2][1..] == u[1..][..k + 1];
    }
  }

  /** seekNewline: the nested scan finds the first CR LF. */
  method SeekNewline(s: Bytes) returns (r: Option<nat>)
    ensures r == FindCRLF(s)
  {
    var pos := 0;
    var last := |s| - 1;
    while pos < last
      invariant 0 <= pos && (pos <= last || pos == 0)
      invariant forall i: nat {:trigger CrlfAt(s, i)} :: CrlfAt(s, i) ==> pos <= i
    {
      while pos < last && s[pos] != CR
        invariant 0 <= pos <= last
        invariant forall i: nat {:trigger CrlfAt(s, i)} :: CrlfAt(s, i) ==> pos <= i
      {
        pos := pos + 1;
      }
      if pos == last {
        return None;
      } else if s[pos + 1] == LF {
        assert CrlfAt(s, pos);
        return Some(pos);
      } else {
        pos := pos + 1;
      }
    }
    return None;
  }

  class RedisReader {
    var err: Option<ProtocolError>
    var buf: SdsString
    var pos: nat
    var len: nat
    var maxbuf: nat
    const rstack: array<ReadTask>
    var ridx: int
    var reply: ReplyObject?

    // The open arrays, outermost first: as grammar frames, and as objects.
    ghost var frames: seq<Frame>
    ghost var nodes: seq<ReplyObject>
    // The finished objects of the reply in the making.
    ghost var built: set<ReplyObject>
    // All bytes fed: those of emitted replies, those used for the reply in the
    // making, then the unread ones.
    ghost var received: Bytes
    ghost var finished: Bytes
    ghost var used: Bytes
    ghost var emitted: seq<Reply>

    ghost function Unread(): Bytes
      requires pos <= len == |buf.bytes|
      reads `buf, `pos, `len
    {
      buf.bytes[pos..len]
    }

    ghost predicate BufferOk()
      reads `err, `buf, `pos, `len
    {
      err == None && pos <= len == |buf.bytes|
    }

    /** The stack and the open objects; `slot` is what the innermost open array holds
        at the current item's index. */
    ghost predicate StackOk(slot: ReplyObject?)
      reads `ridx, `frames, `nodes, `built, `reply, rstack, nodes, built
    {
      && 0 <= ridx <= MAX_LEVEL && ridx == |frames| == |nodes| && rstack.Length == 9
      && Tasks(rstack[..], ridx, frames, nodes)
      && Tree(nodes, frames, slot, built)
      && (nodes != [] ==> reply == nodes[0])
    }

    /** A reply is being read and its current item is still to come. */
    ghost predicate Parsing()
      reads this, rstack, nodes, built
    {
      BufferOk() && StackOk(null) && Tracks(used, frames, rstack[ridx].kind)
    }

    /** The reply has been built as `o`. */
    ghost predicate ReplyBuilt(o: ReplyObject?)
      reads this, built
    {
      && BufferOk()
      && ridx == -1 && frames == [] && nodes == []
      && o != null && o in built && AllBuilt(built)
      && Completes(used, o.val)
    }

    /** No reply is being read. */
    ghost predicate Idle()
      reads this
    {
      && BufferOk()
      && ridx == -1 && frames == [] && nodes == [] && built == {}
      && used == [] && reply == null
    }

    /** The current item needs bytes that have not come yet. */
    ghost predicate Waiting()
      reads this, rstack, nodes, built
    {
      && Parsing()
      && Item(rstack[ridx].kind, ridx, Unread()).More?
      && !(ridx == MAX_LEVEL && rstack[ridx].kind == Some(TArray))
    }

    ghost predicate Failed()
      reads this
    {
      err.Some? && pos == 0 && len == 0 && ridx == -1 && nodes == [] && reply == null
    }

    /** The invariant between calls, with what the bytes so far have meant. */
    ghost predicate Valid()
      reads this, rstack, nodes, built
    {
      && rstack.Length == 9
      && if err.Some? then Failed() && ReadAll(received) == Stream(emitted, err)
         else
           && (if ridx == -1 then Idle() else Parsing() && !(ridx == MAX_LEVEL && rstack[ridx].kind == Some(TArray)))
           && received == finished + (used + Unread())
           && Emits(finished, emitted)
    }

    /** redisReaderCreate. */
    constructor ()
      ensures Valid() && fresh(rstack) && nodes == [] && built == {}
      ensures err == None && received == [] && emitted == []
    {
      err, buf, pos, len, maxbuf := None, Empty(), 0, 0, 1024 * 16;
      rstack := new ReadTask[9](_ => ReadTask(None, 0, 0, null, None));
      ridx, reply := -1, null;
      frames, nodes, built := [], [], {};
      received, finished, used, emitted := [], [], [], [];
      StartEmits();
    }

    /** __redisReaderSetError. The partial reply and the buffer are dropped. */
    method SetError(e: ProtocolError)
      modifies `reply, `buf, `pos, `len, `ridx, `err, `nodes, `frames, `built
      ensures Failed() && err == Some(e)
    {
      reply := null;
      buf := Empty();
      pos, len := 0, 0;
      ridx := -1;
      err := Some(e);
      nodes, frames, built := [], [], {};
    }

    /** readLine. */
    method ReadLine() returns (line: Option<Bytes>)
      requires pos <= len == |buf.bytes|
      modifies `pos
      ensures pos <= len
      ensures match FindCRLF(old(Unread()))
        case None => line == None && pos == old(pos)
        case Some(k) =>
          && line == Some(old(Unread())[..k])
          && pos == old(pos) + k + 2
          && old(Unread()) == old(Unread())[..k + 2] + Unread()
    {
      var p := buf.bytes[pos..len];
      var s := SeekNewline(p);
      if s.Some? {
        pos := pos + s.value + 2;
        return Some(p[..s.value]);
      }
      return None;
    }

    /** The common tail of the object builders: link the object into its parent's slot. */
    method Attach(o: ReplyObject)
      requires StackOk(null) && o !in nodes
      modifies nodes
      ensures StackOk(o)
    {
      var task := rstack[ridx];
      assert ParentOk(rstack[..][ridx], ridx);
      if task.parent.Some? {
        var parent := rstack[task.parent.value].obj;
        TopTask(null);
        assert parent.kind == Typed(TArray);
        SetSlot(nodes, frames, built, parent, task.idx, o);
      }
    }

    /** createStringObject: strings, statuses and errors, by the task's type. */
    method CreateStringObject(text: Bytes) returns (o: ReplyObject)
      requires StackOk(null) && rstack[ridx].kind in {Some(TStatus), Some(TError), Some(TString)}
      modifies nodes, `built
      ensures fresh(o) && o.val == TextReply(rstack[ridx].kind.value, text)
      ensures StackOk(o) && built == old(built) + {o}
    {
      o := new ReplyObject(Typed(rstack[ridx].kind.value));
      o.str := text;
      o.val := TextReply(rstack[ridx].kind.value, text);
      Attach(o);
      TreeBuilt(nodes, frames, o, built);
      built := built + {o};
    }

    /** createIntegerObject. */
    method CreateIntegerObject(value: int) returns (o: ReplyObject)
      requires StackOk(null)
      modifies nodes, `built
      ensures fresh(o) && o.val == Integer(value)
      ensures StackOk(o) && built == old(built) + {o}
    {
      o := new ReplyObject(Typed(TInteger));
      o.integer := value;
      o.val := Integer(value);
      Attach(o);
      TreeBuilt(nodes, frames, o, built);
      built := built + {o};
    }

    /** createNilObject. */
    method CreateNilObject() returns (o: ReplyObject)
      requires StackOk(null)
      modifies nodes, `built
      ensures fresh(o) && o.val == Nil
      ensures StackOk(o) && built == old(built) + {o}
    {
      o := new ReplyObject(NilReply);
      o.val := Nil;
      Attach(o);
      TreeBuilt(nodes, frames, o, built);
      built := built + {o};
    }

    /** createArrayObject: all slots empty. */
    method CreateArrayObject(elements: nat) returns (o: ReplyObject)
      requires StackOk(null)
      modifies nodes
      ensures fresh(o) && o.kind == Typed(TArray) && o.element == seq(elements, _ => null)
      ensures StackOk(o)
    {
      o := new ReplyObject(Typed(TArray));
      if elements > 0 {
        o.element := seq(elements, _ => null);
      }
      Attach(o);
    }

    ghost predicate ItemBuilt(o: ReplyObject)
      reads this, rstack, nodes, built
    {
      BufferOk() && StackOk(o) && o in built && TracksItem(used, frames, o.val)
    }

    /** What `Tree` comes to once no frame is left. */
    method LeaveRoot(ghost o: ReplyObject)
      requires ItemBuilt(o) && ridx == 0
      modifies `ridx
      ensures ridx == -1 && ReplyBuilt(o)
    {
      ridx := ridx - 1;
      RootCompletes(used, o.val);
    }

    /** What the task stack says of the innermost open array. */
    lemma TopTask(slot: ReplyObject?)
      requires StackOk(slot) && ridx > 0
      ensures OpenTask(rstack[ridx - 1], frames[ridx - 1], nodes[ridx - 1])
      ensures rstack[ridx].idx == |frames[ridx - 1].done| < frames[ridx - 1].n
      ensures rstack[ridx].parent == Some(ridx - 1)
      ensures nodes[ridx - 1].kind == Typed(TArray)
    {
      assert ParentOk(rstack[..][ridx], ridx);
      assert OpenTask(rstack[..][ridx - 1], frames[ridx - 1], nodes[ridx - 1]);
      assert rstack[..][ridx].idx == |frames[ridx - 1].done|;
      assert NodeOk(nodes, frames, slot, built, ridx - 1);
    }

    /** The innermost array, with its last item, becomes a finished object. */
    method PopTask(ghost item: ReplyObject)
      requires StackOk(item) && item in built && ridx > 0 && |frames[ridx - 1].done| + 1 == frames[ridx - 1].n
      modifies this`ridx, this`frames, this`nodes, this`built, nodes[ridx - 1]
      ensures ridx == old(ridx) - 1 && nodes == old(nodes)[..ridx] && frames == old(frames)[..ridx]
      ensures var o := old(nodes)[ridx];
        StackOk(o) && o in built && o.val == Array(old(frames)[ridx].done + [old(item.val)])
    {
      hide Tree, Tasks;
      TasksPop(rstack[..], ridx, frames, nodes);
      ghost var ns, fs, bs := nodes, frames, built;
      ridx := ridx - 1;
      frames, nodes, built := fs[..ridx], ns[..ridx], bs + {ns[ridx]};
      CloseArray(ns, fs, item, bs, nodes, frames, ns[ridx], built);
    }

    /** The innermost array is finished, and is itself the item its parent waited for. */
    method LeaveArray(ghost item: ReplyObject) returns (ghost o: ReplyObject)
      requires ItemBuilt(item) && ridx > 0 && |frames[ridx - 1].done| + 1 == frames[ridx - 1].n
      modifies this`ridx, this`frames, this`nodes, this`built, nodes[ridx - 1]
      ensures ridx == old(ridx) - 1 && nodes == old(nodes)[..ridx] && o == old(nodes)[ridx]
      ensures ItemBuilt(o)
    {
      hide Tree, Tasks;
      o := nodes[ridx - 1];
      PopTracks(used, frames, frames[..ridx - 1], frames[ridx - 1], item.val);
      PopTask(item);
    }

    /** The innermost array waits for its next item. */
    method NextSlot(ghost item: ReplyObject)
      requires ItemBuilt(item) && ridx > 0 && |frames[ridx - 1].done| + 1 < frames[ridx - 1].n
      modifies this`frames, rstack
      ensures Parsing() && rstack[ridx].kind == None
    {
      hide Tree, Tasks, Tracks;
      ghost var outer, f := frames[..ridx - 1], frames[ridx - 1];
      NextTracks(used, frames, outer, f, item.val);
      TreeNext(nodes, frames, item, built);
      ghost var stack := rstack[..];
      // A slot with no kind yet: `TasksNext` asks for it.
      rstack[ridx] := rstack[ridx].(kind := None, elements := -1, idx := rstack[ridx].idx + 1);
      frames := outer + [Frame(f.n, f.done + [item.val])];
      TasksNext(stack, rstack[..], ridx, nodes, old(frames), frames);
    }

    /** moveToNextTask: leave every array that the item just built completes. */
    method MoveToNextTask(ghost item: ReplyObject) returns (ghost root: ReplyObject)
      requires ItemBuilt(item)
      modifies this`ridx, this`frames, this`nodes, this`built, rstack, nodes
      ensures root == if old(nodes) == [] then item else old(nodes)[0]
      ensures old(ridx) == 0 ==> ridx == -1
      ensures ridx == -1 ==> ReplyBuilt(root)
      ensures ridx != -1 ==> Parsing() && rstack[ridx].kind == None
      ensures nodes <= old(nodes)
    {
      hide Tree, Tasks;
      root := if nodes == [] then item else nodes[0];
      ghost var o := item;
      while ridx >= 0
        invariant ridx >= 0 && ItemBuilt(o)
        invariant root == if nodes == [] then o else nodes[0]
        invariant nodes <= old(nodes)
        invariant old(ridx) == 0 ==> ridx == 0
        decreases ridx
      {
        if ridx == 0 {
          LeaveRoot(o);
          return;
        }
        var cur, prv := rstack[ridx], rstack[ridx - 1];
        TopTask(o);
        assert prv.kind == Some(TArray);
        if cur.idx == prv.elements - 1 {
          o := LeaveArray(o);
        } else {
          assert cur.idx < prv.elements;
          NextSlot(o);
          return;
        }
      }
    }

    /** What processing an item leaves behind; `pending` is the reply's bytes so far
        with the unread ones. */
    ghost predicate Processed(ok: bool, pending: Bytes)
      reads this, rstack, nodes, built
    {
      if !ok && err.Some? then Failed() && ParseReply(pending, 0) == Fail(err.value)
      else
        && BufferOk() && used + Unread() == pending
        && if !ok then Waiting() else if ridx == -1 then ReplyBuilt(reply) else Parsing()
    }

    /** The item just built used the bytes `c`. */
    method FinishItem(obj: ReplyObject, ghost t: ItemType, ghost u: Bytes, ghost c: Bytes)
      requires BufferOk() && StackOk(obj) && obj in built && Tracks(used, frames, Some(t))
      requires u == c + Unread() && ItemIs(t, |frames|, c, obj.val)
      modifies this`reply, this`used, this`ridx, this`frames, this`nodes, this`built, rstack, nodes
      ensures Processed(true, old(used) + u) && nodes <= old(nodes) && |used| == |old(used)| + |c|
    {
      hide Tree, Tasks;
      ItemTracks(used, frames, t, c, obj.val);
      used := used + c;
      // With no frame open the object has no parent, so `reply` has to keep it.
      if ridx == 0 { reply := obj; }
      ghost var root := MoveToNextTask(obj);
    }

    /** The object a complete line stands for, if it is well formed. */
    method BuildLine(line: Bytes) returns (obj: ReplyObject?)
      requires StackOk(null) && rstack[ridx].kind in {Some(TStatus), Some(TError), Some(TInteger)}
      modifies nodes, `built
      ensures match LineReply(rstack[ridx].kind.value, line)
        case None => obj == null
        case Some(v) => obj != null && StackOk(obj) && obj in built && obj.val == v
    {
      hide Tree, Tasks;
      if rstack[ridx].kind == Some(TInteger) {
        var v := StringToLongLong(line);
        if v.None? { return null; }
        obj := CreateIntegerObject(v.value);
      } else {
        obj := CreateStringObject(line);
      }
    }

    method ProcessLineItem() returns (ok: bool)
      requires Parsing() && rstack[ridx].kind in {Some(TStatus), Some(TError), Some(TInteger)}
      modifies `reply, `buf, `pos, `len, `ridx, `err, `nodes, `frames, `built, `used, rstack, nodes
      ensures Processed(ok, old(used + Unread())) && nodes <= old(nodes)
      ensures ok ==> |used| > |old(used)|
    {
      hide Tree, Tasks;
      ghost var u, t := Unread(), rstack[ridx].kind.value;
      ok := false;
      var p := ReadLine();
      if p.Some? {
        var obj := BuildLine(p.value);
        if obj == null {
          LineFails(used, frames, t, u);
          SetError(BadInteger);
        } else {
          LineCompletes(t, u, ridx, obj.val);
          FinishItem(obj, t, u, u[..|p.value| + 2]);
          ok := true;
        }
      }
    }

    /** The object of a complete bulk item. */
    method BuildBulk(u: Bytes, at: nat, size: int) returns (obj: ReplyObject)
      requires StackOk(null) && rstack[ridx].kind == Some(TString)
      requires at <= |u| && -1 <= size <= |u| - at
      modifies nodes, `built
      ensures StackOk(obj) && obj in built && obj.val == if size == -1 then Nil else Str(u[at..at + size])
    {
      hide Tree, Tasks;
      if size == -1 {
        obj := CreateNilObject();
      } else {
        obj := CreateStringObject(u[at..at + size]);
      }
    }

    method RejectBulk(size: Option<int>)
      requires Parsing() && rstack[ridx].kind == Some(TString) && FindCRLF(Unread()).Some?
      requires size == ParseLong(Unread()[..FindCRLF(Unread()).value]) && (size.None? || size.value < -1)
      modifies `reply, `buf, `pos, `len, `ridx, `err, `nodes, `frames, `built
      ensures Processed(false, old(used + Unread())) && nodes == []
    {
      hide Tree, Tasks;
      BulkFails(used, frames, Unread());
      SetError(if size.None? then BadBulkLength else BulkLengthOutOfRange);
    }

    method ProcessBulkItem() returns (ok: bool)
      requires Parsing() && rstack[ridx].kind == Some(TString)
      modifies `reply, `buf, `pos, `len, `ridx, `err, `nodes, `frames, `built, `used, rstack, nodes
      ensures Processed(ok, old(used + Unread())) && nodes <= old(nodes)
      ensures ok ==> |used| > |old(used)|
    {
      hide Tree, Tasks;
      ok := false;
      var p := buf.bytes[pos..len];
      var s := SeekNewline(p);
      if s.Some? {
        var bytelen := s.value + 2;
        var size := StringToLongLong(p[..s.value]);
        if size.None? || size.value < -1 {
          RejectBulk(size);
        } else if size.value == -1 {
          AcceptBulk(p, bytelen, -1, bytelen);
          ok := true;
        } else if bytelen + size.value + 2 <= |p| {
          // Here `Item` is `Done`, with the line end counted in.
          AcceptBulk(p, bytelen, size.value, bytelen + size.value + 2);
          ok := true;
        } else {
          BulkWaits(p, size.value);
        }
      }
    }

    method AcceptBulk(u: Bytes, at: nat, size: int, bytelen: nat)
      requires Parsing() && rstack[ridx].kind == Some(TString) && u == Unread()
      requires FindCRLF(u) == Some(at - 2) && ParseLong(u[..at - 2]) == Some(size) && size >= -1
      requires bytelen == (if size == -1 then at else at + size + 2) <= |u|
      modifies `reply, `pos, `ridx, `nodes, `frames, `built, `used, rstack, nodes
      ensures Processed(true, old(used) + u) && nodes <= old(nodes) && |used| == |old(used)| + bytelen
    {
      hide Tree, Tasks, Tracks, ItemIs, Resume, Processed, FindCRLF, ParseLong;
      var obj := BuildBulk(u, at, size);
      BulkCompletes(u, ridx, size, obj.val, bytelen);
      pos := pos + bytelen;
      assert u == u[..bytelen] + Unread();
      FinishItem(obj, TString, u, u[..bytelen]);
    }

    /** The object of an array that is complete with its header. */
    method BuildEmptyArray(elements: int) returns (obj: ReplyObject)
      requires StackOk(null) && -1 <= elements <= 0
      modifies nodes, `built
      ensures StackOk(obj) && obj in built && obj.val == if elements == -1 then Nil else Array([])
    {
      if elements == -1 {
        obj := CreateNilObject();
      } else {
        obj := CreateArrayObject(elements);
        obj.val := Array([]);
        TreeBuilt(nodes, frames, obj, built);
        built := built + {obj};
      }
    }

    /** Nothing to push for a nil or empty array. */
    method ProcessEmptyArray(elements: int, ghost u: Bytes, ghost c: Bytes)
      requires BufferOk() && StackOk(null) && Tracks(used, frames, Some(TArray)) && ridx < MAX_LEVEL
      requires -1 <= elements <= 0 && u == c + Unread() && HeaderIs(c, elements)
      modifies this`reply, this`used, this`ridx, this`frames, this`nodes, this`built, rstack, nodes
      ensures Processed(true, old(used) + u) && nodes <= old(nodes) && |used| == |old(used)| + |c|
    {
      hide Tree, Tasks;
      var root := ridx == 0;
      var obj := BuildEmptyArray(elements);
      ClosedArrayCompletes(c, elements, ridx, obj.val);
      ItemTracks(used, frames, TArray, c, obj.val);
      used := used + c;
      ghost var top := MoveToNextTask(obj);
      if root { reply := obj; }
    }

    /** A task for the first item of the array `obj`. */
    method PushTask(obj: ReplyObject, elements: nat)
      requires StackOk(obj) && obj !in nodes && obj !in built && ridx < MAX_LEVEL && rstack[ridx].kind == Some(TArray)
      requires obj.kind == Typed(TArray) && elements > 0 && obj.element == seq(elements, _ => null)
      modifies this`reply, this`ridx, this`frames, this`nodes, rstack
      ensures StackOk(null) && rstack[ridx].kind == None
      ensures frames == old(frames) + [Frame(elements, [])] && nodes == old(nodes) + [obj]
    {
      hide Tree, Tasks;
      var root := ridx == 0;
      ghost var stack := rstack[..];
      rstack[ridx] := rstack[ridx].(elements := elements, obj := obj);
      ridx := ridx + 1;
      rstack[ridx] := ReadTask(None, -1, 0, null, Some(ridx - 1));
      TasksPush(stack, rstack[..], ridx, frames, nodes, elements, obj);
      if root { reply := obj; }
      frames, nodes := frames + [Frame(elements, [])], nodes + [obj];
      TreeOpen(old(nodes), old(frames), obj, built);
    }

    /** An array with items waits for the first of them. */
    method OpenArray(elements: nat, ghost u: Bytes, ghost c: Bytes) returns (obj: ReplyObject)
      requires BufferOk() && StackOk(null) && Tracks(used, frames, Some(TArray)) && ridx < MAX_LEVEL
      requires rstack[ridx].kind == Some(TArray)
      requires 0 < elements && u == c + Unread() && HeaderIs(c, elements)
      modifies this`reply, this`used, this`ridx, this`frames, this`nodes, rstack, nodes
      ensures Processed(true, old(used) + u) && |used| == |old(used)| + |c|
      ensures fresh(obj) && nodes == old(nodes) + [obj]
    {
      hide Tree, Tasks;
      HeaderTracks(used, frames, c, elements);
      used := used + c;
      obj := CreateArrayObject(elements);
      PushTask(obj, elements);
    }

    method ProcessMultiBulkItem() returns (ok: bool)
      requires Parsing() && rstack[ridx].kind == Some(TArray)
      modifies `reply, `buf, `pos, `len, `ridx, `err, `nodes, `frames, `built, `used, rstack, nodes
      ensures Processed(ok, old(used + Unread()))
      ensures forall i :: 0 <= i < |nodes| ==> nodes[i] in old(nodes) || fresh(nodes[i])
      ensures ok ==> |used| > |old(used)|
    {
      hide Tree, Tasks;
      ghost var u := Unread();
      ok := false;
      if ridx == 8 {
        ReplyStops(used, frames, Some(TArray), u);
        SetError(TooDeep);
        return;
      }
      var p := ReadLine();
      if p.Some? {
        ghost var c := u[..|p.value| + 2];
        var elements := StringToLongLong(p.value);
        if elements.None? || elements.value < -1 || elements.value > INT_MAX {
          HeaderFails(used, frames, u);
          SetError(if elements.None? then BadMultiBulkLength else MultiBulkLengthOutOfRange);
        } else {
          HeaderCompletes(u, elements.value);
          if elements.value <= 0 {
            ProcessEmptyArray(elements.value, u, c);
          } else {
            var obj := OpenArray(elements.value, u, c);
          }
          ok := true;
        }
      } else {
        HeaderWaits(u, ridx);
      }
    }

    /** processItem: the type byte if it is still to come, then the rest. */
    method ProcessItem() returns (ok: bool)
      requires Parsing()
      modifies `reply, `buf, `pos, `len, `ridx, `err, `nodes, `frames, `built, `used, rstack, nodes
      ensures Processed(ok, old(used + Unread()))
      ensures forall i :: 0 <= i < |nodes| ==> nodes[i] in old(nodes) || fresh(nodes[i])
      ensures ok ==> |used| > |old(used)|
    {
      hide Tree, Tasks;
      if rstack[ridx].kind == None {
        var more := ReadType();
        if !more { return false; }
      }
      match rstack[ridx].kind.value {
        case TString => ok := ProcessBulkItem();
        case TArray => ok := ProcessMultiBulkItem();
        case _ => ok := ProcessLineItem();
      }
    }

    /** The type byte of an item, if there is one to read and it is a known one. */
    method ReadType() returns (more: bool)
      requires Parsing() && rstack[ridx].kind == None
      modifies `reply, `buf, `pos, `len, `ridx, `err, `nodes, `frames, `built, `used, rstack
      ensures !more ==> Processed(false, old(used + Unread()))
      ensures more ==> Parsing() && rstack[ridx].kind.Some? && used + Unread() == old(used + Unread())
      ensures more ==> nodes == old(nodes) && |used| > |old(used)|
      ensures nodes <= old(nodes)
    {
      hide Tree, Tasks, Tracks;
      if len - pos < 1 { return false; }
      var b := buf.bytes[pos];
      ghost var u := Unread();
      if TypeOf(b).None? {
        ReplyStops(used, frames, None, u);
        SetError(BadTypeByte(b));
        return false;
      }
      pos := pos + 1;
      assert u == [b] + Unread();
      TypeByteTracks(used, frames, b, TypeOf(b).value);
      ghost var stack := rstack[..];
      rstack[ridx] := rstack[ridx].(kind := TypeOf(b));
      TasksTyped(stack, rstack[..], ridx, frames, nodes, TypeOf(b));
      used := used + [b];
      more := true;
    }

    /** The buffer side of redisReaderFeed. */
    method Append(chunk: Bytes)
      requires BufferOk()
      modifies `buf, `pos, `len
      ensures BufferOk() && Unread() == old(Unread()) + chunk
    {
      // Nothing is lost: `len == 0` makes `Unread()` empty.
      if len == 0 && maxbuf != 0 && buf.Avail() > maxbuf {
        buf := Empty();
        pos := 0;
      }
      buf := CatLen(buf, chunk);
      len := |buf.bytes|;
    }

    /** redisReaderFeed. */
    method Feed(chunk: Bytes) returns (ok: bool)
      requires Valid()
      modifies `buf, `pos, `len, `received
      ensures Valid()
      ensures ok <==> err == None
      ensures received == if ok then old(received) + chunk else old(received)
    {
      if err.Some? { return false; }
      if |chunk| >= 1 {
        Append(chunk);
        received := received + chunk;
        assert received == finished + (used + Unread());
      } else {
        assert received + chunk == received;
      }
      return true;
    }

    /** The loop of redisReaderGetReply: items until the reply is complete, or one of
        them cannot be. */
    method ProcessItems()
      requires Parsing()
      modifies `reply, `buf, `pos, `len, `ridx, `err, `nodes, `frames, `built, `used, rstack, nodes
      ensures Processed(err == None && ridx == -1, old(used + Unread()))
      ensures forall i :: 0 <= i < |nodes| ==> nodes[i] in old(nodes) || fresh(nodes[i])
    {
      hide Tree, Tasks;
      ghost var pending := used + Unread();
      while ridx >= 0
        invariant Processed(true, pending)
        invariant forall i :: 0 <= i < |nodes| ==> nodes[i] in old(nodes) || fresh(nodes[i])
        decreases |pending| - |used|
      {
        var ok := ProcessItem();
        if !ok { break; }
      }
    }

    /** Consumed bytes are dropped in pieces of at least a kilobyte. */
    method Discard()
      requires BufferOk()
      modifies `buf, `pos, `len
      ensures BufferOk() && Unread() == old(Unread())
    {
      if pos >= 1024 {
        buf := Range(buf, pos, -1);
        pos := 0;
        len := |buf.bytes|;
      }
    }

    /** Without unread bytes there is nothing more to report. */
    lemma NothingToRead()
      requires Valid() && err == None && len == 0
      ensures ReadAll(received) == Stream(emitted, None)
    {
      assert Unread() == [];
      if ridx >= 0 {
        if rstack[ridx].kind == Some(TArray) { HeaderWaits([], ridx); }
        ReplyStops(used, frames, rstack[ridx].kind, []);
      }
      StreamStops(finished, emitted, used + Unread());
    }

    /** The finished reply is handed out, and the reader lets go of it. */
    method Emit() returns (r: ReplyObject, ghost tree: set<ReplyObject>)
      requires ReplyBuilt(reply) && received == finished + (used + Unread()) && Emits(finished, emitted)
      modifies `reply, `emitted, `finished, `used, `built
      ensures Idle() && received == finished + (used + Unread()) && Emits(finished, emitted)
      ensures Represents(r, r.val, tree) && emitted == old(emitted) + [r.val]
      ensures |old(finished)| < |finished| <= |received|
    {
      r, tree := reply, built;
      CompletesSome(used, r.val);
      BuiltRepresents(r, r.val, built);
      EmitsOneMore(finished, emitted, used, r.val);
      emitted := emitted + [r.val];
      finished := finished + used;
      used := [];
      built := {};
      reply := null;
      assert received == finished + (used + Unread());
    }

    /** From `Idle` to `Parsing`: one task, whose kind is still open. */
    method StartReply()
      requires Idle() && rstack.Length == 9
      modifies `ridx, rstack
      ensures Parsing() && rstack[ridx].kind == None
    {
      rstack[0] := ReadTask(None, -1, -1, null, None);
      ridx := 0;
      StartTracks();
    }

    /** What the items of a reply came to is what the stream comes to. */
    lemma PendingStops(pending: Bytes)
      requires Processed(err == None && ridx == -1, pending)
      requires received == finished + pending && Emits(finished, emitted)
      ensures err.Some? ==> ReadAll(received) == Stream(emitted, err)
      ensures err == None && ridx != -1 ==> ReadAll(received) == Stream(emitted, None)
    {
      if err == None && ridx != -1 { ReplyStops(used, frames, rstack[ridx].kind, Unread()); }
      if err.Some? || ridx != -1 { StreamStops(finished, emitted, pending); }
    }

    /** Reads on until the reply is complete, fails, or needs more bytes. */
    method ReadReply()
      requires Valid() && err == None
      modifies `reply, `buf, `pos, `len, `ridx, `err, `nodes, `frames, `built, `used, rstack, nodes
      ensures err == None && ridx == -1 ==> ReplyBuilt(reply) && received == finished + (used + Unread())
      ensures err.Some? || ridx != -1 ==> Valid() && ReadAll(received) == Stream(emitted, err)
      ensures forall i :: 0 <= i < |nodes| ==> nodes[i] in old(nodes) || fresh(nodes[i])
    {
      hide Tree, Tasks;
      ghost var pending := used + Unread();
      if ridx == -1 { StartReply(); }
      ProcessItems();
      if err == None { Discard(); }
      PendingStops(pending);
    }

    /** redisReaderGetReply. `tree` holds the objects of the reply handed out, which the
        reader no longer keeps. */
    method GetReply() returns (ok: bool, r: ReplyObject?, ghost tree: set<ReplyObject>)
      requires Valid()
      modifies this, rstack, nodes
      ensures Valid() && received == old(received) && ok == (err == None) && (old(err).Some? ==> err == old(err))
      ensures r == null ==> emitted == old(emitted) && ReadAll(received) == Stream(emitted, err)
      ensures r != null ==> ok && nodes == [] && built == {}
      ensures r != null ==> Represents(r, r.val, tree) && emitted == old(emitted) + [r.val]
      ensures r != null ==> |old(finished)| < |finished| <= |received|
      ensures forall i :: 0 <= i < |nodes| ==> nodes[i] in old(nodes) || fresh(nodes[i])
    {
      hide Tree, Tasks;
      ok, r, tree := true, null, {};
      if err.Some? {
        ok := false;
      } else if len == 0 {
        NothingToRead();
      } else {
        ReadReply();
        ok := err == None;
        if ok && ridx == -1 {
          r, tree := Emit();
        }
      }
    }
  }

  ghost function LineReply(t: ItemType, line: Bytes): Option<Reply>
    requires t in {TStatus, TError, TInteger}
  {
    if t != TInteger then Some(TextReply(t, line))
    else match ParseLong(line) case None => None case Some(n) => Some(Integer(n))
  }

  function TextReply(t: ItemType, text: Bytes): Reply
    requires t in {TStatus, TError, TString}
  {
    match t case TStatus => Status(text) case TError => Error(text) case TString => Str(text)
  }
}
